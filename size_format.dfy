/**
 * `readableFileSize`: a byte count becomes "512 B" or "<quotient> <unit>".
 * The unit is chosen over exact arithmetic; the one-decimal text of the
 * quotient (`toFixed(1)`) is a parameter `fixed1`.
 */
module SizeFormat {
  import opened Decimal

  /** The value `parseInt(bytes, 10)` yields: an integer, or NaN. */
  datatype Parsed = NaN | Int(value: int)

  function Abs(x: int): nat {
    if x < 0 then -x else x
  }

  function RealAbs(x: real): real {
    if x < 0.0 then -x else x
  }

  /** 1000 with `si` set, 1024 otherwise. */
  function Threshold(si: bool): nat {
    if si then 1000 else 1024
  }

  function Units(si: bool): (units: seq<string>)
    ensures |units| == 8
  {
    if si then ["kB", "MB", "GB", "TB", "PB", "EB", "ZB", "YB"]
    else ["KiB", "MiB", "GiB", "TiB", "PiB", "EiB", "ZiB", "YiB"]
  }

  /** Index of the last unit. */
  const LastUnit: nat := 7

  function Pow(b: nat, e: nat): (p: nat)
    ensures b >= 1 ==> p >= 1
  {
    if e == 0 then 1 else b * Pow(b, e - 1)
  }

  /** `bytes` divided `k` times by `t`, without rounding. */
  function Quotient(bytes: int, t: nat, k: nat): real
    requires t >= 1
  {
    bytes as real / Pow(t, k) as real
  }

  /**
   * After dividing magnitude `a` by `t` for unit `v` (v + 1 times), the
   * quotient is still at least `t`: a / t^(v+1) >= t, that is a >= t^(v+2).
   */
  predicate StillLarge(a: nat, t: nat, v: nat) {
    Pow(t, v + 2) <= a
  }

  /**
   * `u` is the unit the size loop stops at for magnitude `a`: every earlier
   * unit left a quotient of at least `t`, and at `u` the quotient is below
   * `t` or the units ran out.
   */
  ghost predicate IsUnitIndex(a: nat, t: nat, u: nat) {
    u <= LastUnit &&
    (u == LastUnit || !StillLarge(a, t, u)) &&
    forall v | 0 <= v < u :: StillLarge(a, t, v)
  }

  /** The least unit index from `u` on whose quotient is below `t`, or the last. */
  function UnitFrom(a: nat, t: nat, u: nat): (r: nat)
    requires u <= LastUnit
    ensures u <= r <= LastUnit
    decreases LastUnit - u
  {
    if u == LastUnit || !StillLarge(a, t, u) then u else UnitFrom(a, t, u + 1)
  }

  function UnitIndex(a: nat, t: nat): nat {
    UnitFrom(a, t, 0)
  }

  /** The label `readableFileSize(bytes, si)` returns. */
  function SizeLabel(bytes: Parsed, si: bool, fixed1: real -> string): string {
    match bytes
    case NaN => NaNLabel(si)
    case Int(b) => IntSizeLabel(b, si, fixed1)
  }

  /** NaN fails the `<` test, is divided once, stays NaN, and is printed with the first unit. */
  function NaNLabel(si: bool): string {
    "NaN " + Units(si)[0]
  }

  /** The label of an integral byte count. */
  function IntSizeLabel(b: int, si: bool, fixed1: real -> string): string {
    var t := Threshold(si);
    if Abs(b) < t then IntToString(b) + " B"
    else
      var u := UnitIndex(Abs(b), t);
      fixed1(Quotient(b, t, u + 1)) + " " + Units(si)[u]
  }

  lemma {:induction false} UnitFromSkipped(a: nat, t: nat, u: nat)
    requires u <= LastUnit
    ensures var r := UnitFrom(a, t, u);
      (r == LastUnit || !StillLarge(a, t, r)) &&
      forall v | u <= v < r :: StillLarge(a, t, v)
    decreases LastUnit - u
  {
    if !(u == LastUnit || !StillLarge(a, t, u)) {
      UnitFromSkipped(a, t, u + 1);
    }
  }

  /** `UnitIndex` is the least index at which the size loop stops. */
  lemma UnitIndexIsLeast(a: nat, t: nat)
    ensures IsUnitIndex(a, t, UnitIndex(a, t))
  {
    UnitFromSkipped(a, t, 0);
  }

  /** Only one index satisfies the stopping rule. */
  lemma UnitIndexUnique(a: nat, t: nat, u: nat)
    requires IsUnitIndex(a, t, u)
    ensures u == UnitIndex(a, t)
  {
    var w := UnitIndex(a, t);
    UnitIndexIsLeast(a, t);
    assert u < w ==> StillLarge(a, t, u);
  }

  /** A larger magnitude never gets a smaller unit. */
  lemma UnitIndexMonotone(a: nat, b: nat, t: nat)
    requires a <= b
    ensures UnitIndex(a, t) <= UnitIndex(b, t)
  {
    UnitIndexIsLeast(a, t);
    UnitIndexIsLeast(b, t);
    var ua, ub := UnitIndex(a, t), UnitIndex(b, t);
    assert ub < ua ==> StillLarge(a, t, ub);
  }

  lemma QuotientStep(bytes: int, t: nat, k: nat)
    requires t >= 1
    ensures Quotient(bytes, t, k + 1) == Quotient(bytes, t, k) / t as real
  {
    var p := Pow(t, k) as real;
    assert Pow(t, k + 1) as real == p * t as real;
    assert p > 0.0 && t as real > 0.0;
  }

  lemma DivAtLeast(x: real, p: real, c: real)
    requires p > 0.0
    ensures x / p >= c <==> x >= c * p
  {
    if x / p >= c {
      assert x == (x / p) * p;
    }
    if x >= c * p {
      assert x / p >= (c * p) / p;
    }
  }

  lemma AbsOfQuotient(x: int, p: nat)
    requires p > 0
    ensures RealAbs(x as real / p as real) == Abs(x) as real / p as real
  {
    if x < 0 {
      assert x as real / p as real == -((-x) as real / p as real);
    }
  }

  /** The quotient after `k` divisions is at least `c` exactly when |bytes| >= c * t^k. */
  lemma QuotientAtLeast(bytes: int, t: nat, k: nat, c: nat)
    requires t >= 1
    ensures RealAbs(Quotient(bytes, t, k)) >= c as real <==> Abs(bytes) >= c * Pow(t, k)
  {
    var p := Pow(t, k);
    AbsOfQuotient(bytes, p);
    DivAtLeast(Abs(bytes) as real, p as real, c as real);
    assert (c * p) as real == c as real * p as real;
  }

  lemma PowSucc(t: nat, k: nat)
    ensures Pow(t, k + 1) == t * Pow(t, k)
  {
  }

  /** Outside the bytes branch, the chosen unit's divisor t^(u+1) does not exceed the magnitude. */
  lemma UnitDivisorAtMost(a: nat, t: nat)
    requires a >= t
    ensures Pow(t, UnitIndex(a, t) + 1) <= a
  {
    var u := UnitIndex(a, t);
    UnitIndexIsLeast(a, t);
    if u == 0 {
      assert Pow(t, 1) == t;
    } else {
      assert StillLarge(a, t, u - 1);
    }
  }

  /**
   * Outside the bytes branch the printed quotient lies in [1, t), unless all
   * eight units were used up.
   */
  lemma QuotientInRange(b: int, si: bool)
    requires Abs(b) >= Threshold(si)
    ensures var t := Threshold(si); var u := UnitIndex(Abs(b), t);
      RealAbs(Quotient(b, t, u + 1)) >= 1.0 &&
      (u < LastUnit ==> RealAbs(Quotient(b, t, u + 1)) < t as real)
  {
    var t := Threshold(si);
    var u := UnitIndex(Abs(b), t);
    UnitDivisorAtMost(Abs(b), t);
    QuotientAtLeast(b, t, u + 1, 1);
    UnitIndexIsLeast(Abs(b), t);
    PowSucc(t, u + 1);
    QuotientAtLeast(b, t, u + 1, t);
  }

  /** Below the threshold the label is the integer itself followed by " B". */
  lemma SmallSizeInBytes(b: int, si: bool, fixed1: real -> string)
    requires Abs(b) < Threshold(si)
    ensures SizeLabel(Int(b), si, fixed1) == IntToString(b) + " B"
  {
  }

  lemma DecimalExample(fixed1: real -> string)
    ensures SizeLabel(Int(1500), true, fixed1) == fixed1(1.5) + " kB"
  {
    assert Pow(1000, 2) == 1000000;
    assert UnitIndex(1500, 1000) == 0;
    assert Pow(1000, 1) == 1000;
    assert Quotient(1500, 1000, 1) == 1.5;
  }

  lemma BinaryExample(fixed1: real -> string)
    ensures SizeLabel(Int(1536), false, fixed1) == fixed1(1.5) + " KiB"
  {
    assert Pow(1024, 2) == 1048576;
    assert UnitIndex(1536, 1024) == 0;
    assert Pow(1024, 1) == 1024;
    assert Quotient(1536, 1024, 1) == 1.5;
  }

  lemma GibibyteExample(fixed1: real -> string)
    ensures SizeLabel(Int(1073741824), false, fixed1) == fixed1(1.0) + " GiB"
  {
    var a := 1073741824;
    assert Pow(1024, 2) == 1048576;
    assert Pow(1024, 3) == a;
    assert Pow(1024, 4) == 1099511627776;
    assert StillLarge(a, 1024, 0) && StillLarge(a, 1024, 1) && !StillLarge(a, 1024, 2);
    assert UnitFrom(a, 1024, 2) == 2;
    assert UnitIndex(a, 1024) == 2;
    assert Quotient(a, 1024, 3) == 1.0;
  }

  /** A missing size gives "NaN" with the first unit, not "NaN B". */
  lemma NaNExample(fixed1: real -> string)
    ensures SizeLabel(NaN, false, fixed1) == "NaN KiB"
    ensures SizeLabel(NaN, true, fixed1) == "NaN kB"
  {
  }

  /**
   * `readableFileSize(bytes, si)` with `toFixed(1)` given as `fixed1`: the
   * `do ... while` divides by the threshold until the quotient drops below
   * it or the last unit is reached.
   */
  method ReadableFileSize(bytes: Parsed, si: bool, fixed1: real -> string) returns (text: string)
    ensures text == SizeLabel(bytes, si, fixed1)
    ensures bytes.Int? && Abs(bytes.value) < Threshold(si) ==> text == IntToString(bytes.value) + " B"
    ensures bytes.Int? && Abs(bytes.value) >= Threshold(si) ==>
      exists u: nat | IsUnitIndex(Abs(bytes.value), Threshold(si), u) ::
        text == fixed1(Quotient(bytes.value, Threshold(si), u + 1)) + " " + Units(si)[u]
  {
    var t := Threshold(si);
    var units := Units(si);
    if bytes.NaN? {
      // NaN fails the `<` test, is divided once and stays NaN
      return "NaN " + units[0];
    }
    var b := bytes.value;
    if Abs(b) < t {
      return IntToString(b) + " B";
    }
    // first pass of the do ... while
    var q: real := b as real / t as real;
    var u := 0;
    assert Pow(t, 1) == t;
    assert q == Quotient(b, t, 1);
    while RealAbs(q) >= t as real && u < |units| - 1
      invariant 0 <= u <= LastUnit
      invariant q == Quotient(b, t, u + 1)
      invariant forall v | 0 <= v < u :: StillLarge(Abs(b), t, v)
      decreases LastUnit - u
    {
      QuotientAtLeast(b, t, u + 1, t);
      PowSucc(t, u + 1);
      QuotientStep(b, t, u + 1);
      q := q / t as real;
      u := u + 1;
    }
    if u < LastUnit {
      QuotientAtLeast(b, t, u + 1, t);
      PowSucc(t, u + 1);
    }
    assert IsUnitIndex(Abs(b), t, u);
    UnitIndexUnique(Abs(b), t, u);
    text := fixed1(q) + " " + units[u];
  }
}
