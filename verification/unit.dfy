/**
  The unit scaler and formatter: binary units with their multipliers and display prefixes,
  amounts of bytes paired with a display unit, automatic unit selection, and the
  "<quantity to one decimal> <prefix>B" rendering.
 */
module Units {
  import opened Wrappers
  import Decimal

  /** The closed set of display units, in increasing scale. */
  datatype Unit = Byte | Kilo | Mega | Giga | Tera

  /** The scale table auto-detection indexes: position k holds the unit worth 1024^k bytes. */
  const Scales: seq<Unit> := [Byte, Kilo, Mega, Giga, Tera]

  /** Position of a unit in the scale order. */
  function Index(u: Unit): (i: nat)
    ensures i < |Scales| && Scales[i] == u
  {
    match u
    case Byte => 0
    case Kilo => 1
    case Mega => 2
    case Giga => 3
    case Tera => 4
  }

  lemma IndexOfScale(i: nat)
    requires i < |Scales|
    ensures Index(Scales[i]) == i
  {
  }

  /** 1024 raised to the k-th power: the reference definition of the unit multipliers. */
  function Pow1024(k: nat): (p: nat)
    ensures p >= 1
  {
    if k == 0 then 1 else 1024 * Pow1024(k - 1)
  }

  lemma {:induction false} Pow1024StrictlyIncreasing(i: nat, j: nat)
    requires i < j
    ensures Pow1024(i) < Pow1024(j)
    decreases j
  {
    if j > i + 1 {
      Pow1024StrictlyIncreasing(i, j - 1);
    }
  }

  lemma Pow1024Table()
    ensures Pow1024(0) == 1 && Pow1024(1) == 1024 && Pow1024(2) == 1048576
    ensures Pow1024(3) == 1073741824 && Pow1024(4) == 1099511627776
  {
    assert Pow1024(2) == 1048576;
    assert Pow1024(3) == 1073741824;
  }

  /**
    The multiplier of a unit. The literals are the discriminants of the source's
    UnitValue enumeration: 1, 1 << 10, 1 << 20, 1 << 30 and 1 << 40.
   */
  function ToValue(u: Unit): (v: nat)
    ensures v == Pow1024(Index(u))
  {
    Pow1024Table();
    match u
    case Byte => 1
    case Kilo => 1024
    case Mega => 1048576
    case Giga => 1073741824
    case Tera => 1099511627776
  }

  /** The multipliers follow the scale order strictly, in both directions. */
  lemma ToValueStrictlyIncreasing(u: Unit, w: Unit)
    ensures Index(u) < Index(w) <==> ToValue(u) < ToValue(w)
  {
    if Index(u) < Index(w) {
      Pow1024StrictlyIncreasing(Index(u), Index(w));
    } else if Index(w) < Index(u) {
      Pow1024StrictlyIncreasing(Index(w), Index(u));
    }
  }

  /** The display prefix of a unit: empty for plain bytes, a binary prefix otherwise. */
  function Prefix(u: Unit): (s: string)
    ensures s == "" <==> u == Byte
    ensures u != Byte ==> |s| == 2 && s[1] == 'i'
  {
    match u
    case Byte => ""
    case Kilo => "Ki"
    case Mega => "Mi"
    case Giga => "Gi"
    case Tera => "Ti"
  }

  /** Inverse of Prefix: the unit a prefix names, if any. */
  function ParsePrefix(s: string): (r: Option<Unit>)
  {
    if s == "" then Some(Byte)
    else if s == "Ki" then Some(Kilo)
    else if s == "Mi" then Some(Mega)
    else if s == "Gi" then Some(Giga)
    else if s == "Ti" then Some(Tera)
    else None
  }

  /** Prefix and ParsePrefix are inverse: every unit has exactly one prefix and back. */
  lemma PrefixRoundTrip(u: Unit, s: string)
    ensures ParsePrefix(Prefix(u)) == Some(u)
    ensures ParsePrefix(s) == Some(u) ==> s == Prefix(u)
  {
  }

  /** A byte count paired with the unit it is to be displayed in. */
  datatype Amount = Amount(bytes: nat, unit: Unit)

  /** Direct construction: the count and the unit are stored as given. */
  function New(bytes: nat, unit: Unit): (a: Amount)
    ensures a.bytes == bytes && a.unit == unit
  {
    Amount(bytes, unit)
  }

  /**
    `u` is the unit automatic detection is meant to pick for `bytes`: the largest scale
    index k <= 4 such that bytes > 1024^k, and Byte when no k qualifies.
   */
  predicate IsAutoUnit(bytes: nat, u: Unit) {
    && (Index(u) == 0 || bytes > Pow1024(Index(u)))
    && forall k: nat :: Index(u) < k < |Scales| ==> bytes <= Pow1024(k)
  }

  /** At most one unit is the automatic choice for a byte count. */
  lemma AutoUnitUnique(bytes: nat, u: Unit, w: Unit)
    requires IsAutoUnit(bytes, u) && IsAutoUnit(bytes, w)
    ensures u == w
  {
  }

  /** The largest index i <= k with i == 0 or bytes > 1024^i. */
  function LargestScaleUpTo(bytes: nat, k: nat): (i: nat)
    requires k < |Scales|
    ensures i <= k
    ensures i == 0 || bytes > Pow1024(i)
    ensures forall j: nat :: i < j <= k ==> bytes <= Pow1024(j)
    decreases k
  {
    if k == 0 || bytes > Pow1024(k) then k else LargestScaleUpTo(bytes, k - 1)
  }

  /**
    Automatic unit detection with the empty-scale case clamped to Byte: the original
    count is kept and only the display unit is chosen.
   */
  function AutoDetect(bytes: nat): (a: Amount)
    ensures a.bytes == bytes
    ensures IsAutoUnit(bytes, a.unit)
  {
    var i := LargestScaleUpTo(bytes, |Scales| - 1);
    IndexOfScale(i);
    New(bytes, Scales[i])
  }

  /**
    The result of the source's detection as a value: None where it panics (no division
    happened, so the table is indexed at -1), otherwise the corrected detection.
    AutoDetectAsWritten proves that its loop computes exactly this.
   */
  function AutoDetectOutcome(bytes: nat): (r: Option<Amount>)
    ensures r.None? <==> bytes <= 1
    ensures r.Some? ==> r.value.bytes == bytes && IsAutoUnit(bytes, r.value.unit)
  {
    if bytes <= 1 then None else Some(AutoDetect(bytes))
  }

  /**
    The detection loop: divide a working copy of the count by 1024 while it exceeds one and
    fewer than five divisions happened. The result is how many powers 1024^j, j < 5, the
    count exceeds.
   */
  method CountDivisions(bytes: nat) returns (counter: nat)
    ensures counter <= |Scales|
    ensures forall j: nat :: j < counter ==> bytes > Pow1024(j)
    ensures counter == |Scales| || bytes <= Pow1024(counter)
  {
    var amount: real := bytes as real;
    counter := 0;
    while amount > 1.0 && counter < 5
      invariant counter <= 5
      invariant amount * Pow1024(counter) as real == bytes as real
      invariant forall j: nat :: j < counter ==> bytes > Pow1024(j)
      decreases 5 - counter
    {
      DivisionStep(amount, bytes, counter);
      amount := amount / 1024.0;
      counter := counter + 1;
    }
    if counter < 5 {
      DivisionStop(amount, bytes, counter);
    }
  }

  /** One more division: the working copy exceeded one, so the count exceeds 1024^k. */
  lemma DivisionStep(amount: real, bytes: nat, k: nat)
    requires amount * Pow1024(k) as real == bytes as real && amount > 1.0
    ensures bytes > Pow1024(k)
    ensures (amount / 1024.0) * Pow1024(k + 1) as real == bytes as real
  {
    var n := Pow1024(k);
    ScaledAboveOne(amount, n as real, bytes as real);
    assert Pow1024(k + 1) == 1024 * n;
    DivideThenScale(amount, n as real, bytes as real);
  }

  /** The loop stopped early: the working copy is at most one, so the count is at most 1024^k. */
  lemma DivisionStop(amount: real, bytes: nat, k: nat)
    requires amount * Pow1024(k) as real == bytes as real && amount <= 1.0
    ensures bytes <= Pow1024(k)
  {
    ScaledAtMostOne(amount, Pow1024(k) as real, bytes as real);
  }

  lemma ScaledAboveOne(a: real, p: real, b: real)
    requires a * p == b && a > 1.0 && p >= 1.0
    ensures b > p
  {
  }

  lemma ScaledAtMostOne(a: real, p: real, b: real)
    requires a * p == b && a <= 1.0 && p >= 1.0
    ensures b <= p
  {
  }

  lemma DivideThenScale(a: real, p: real, b: real)
    requires a * p == b
    ensures (a / 1024.0) * (1024.0 * p) == b
  {
  }

  /**
    Automatic detection as the source writes it: after the loop it indexes the table at
    counter - 1, which panics when no division happened. None stands for that panic.
   */
  method AutoDetectAsWritten(bytes: nat) returns (r: Option<Amount>)
    ensures r.None? <==> bytes <= 1
    ensures r.Some? ==> r.value.bytes == bytes && IsAutoUnit(bytes, r.value.unit)
    ensures r == AutoDetectOutcome(bytes)
  {
    var counter := CountDivisions(bytes);
    if counter == 0 {
      r := None;
    } else {
      var u := Scales[counter - 1];
      IndexOfScale(counter - 1);
      forall k: nat | counter - 1 < k < |Scales|
        ensures bytes <= Pow1024(k)
      {
        if counter < k {
          Pow1024StrictlyIncreasing(counter, k);
        }
      }
      AutoUnitUnique(bytes, u, AutoDetect(bytes).unit);
      r := Some(New(bytes, u));
    }
  }

  /** The quantity shown: the stored count divided by the unit's multiplier. */
  function ToQuantity(a: Amount): (q: real)
    ensures q >= 0.0
    ensures q * ToValue(a.unit) as real == a.bytes as real
  {
    a.bytes as real / ToValue(a.unit) as real
  }

  /**
    The quantity rounded to the nearest tenth, ties upward, as a count of tenths: t / 10 lies
    within half a tenth of bytes / multiplier, stated without division.
   */
  function QuantityTenths(a: Amount): (t: nat)
    ensures (2 * t - 1) * ToValue(a.unit) <= 20 * a.bytes < (2 * t + 1) * ToValue(a.unit)
    ensures (2 * t - 1) as real / 20.0 <= ToQuantity(a) < (2 * t + 1) as real / 20.0
  {
    var v := ToValue(a.unit);
    var t := (20 * a.bytes + v) / (2 * v);
    RoundingBounds(a.bytes, v);
    TenthsOfQuantity(a.bytes, v, t, ToQuantity(a));
    t
  }

  /** The integer rounding bounds, restated for the real quotient q == b / v. */
  lemma TenthsOfQuantity(b: nat, v: nat, t: nat, q: real)
    requires v >= 1 && q * v as real == b as real
    requires (2 * t - 1) * v <= 20 * b < (2 * t + 1) * v
    ensures (2 * t - 1) as real / 20.0 <= q < (2 * t + 1) as real / 20.0
  {
    var lo, hi := 2 * t - 1, 2 * t + 1;
    IntProductAsReal(lo, v);
    IntProductAsReal(hi, v);
    DividedBounds(lo as real, hi as real, q, v as real, b as real);
  }

  lemma IntProductAsReal(x: int, y: int)
    ensures (x * y) as real == x as real * y as real
  {
  }

  /** From lo * v <= 20 * b < hi * v with b == q * v and v positive, lo / 20 <= q < hi / 20. */
  lemma DividedBounds(lo: real, hi: real, q: real, v: real, b: real)
    requires v > 0.0 && q * v == b && lo * v <= 20.0 * b < hi * v
    ensures lo / 20.0 <= q < hi / 20.0
  {
    assert (20.0 * q - lo) * v >= 0.0;
    assert (hi - 20.0 * q) * v > 0.0;
  }

  lemma RoundingBounds(b: nat, v: nat)
    requires v >= 1
    ensures var t := (20 * b + v) / (2 * v); (2 * t - 1) * v <= 20 * b < (2 * t + 1) * v
  {
    var t := (20 * b + v) / (2 * v);
    var r := (20 * b + v) % (2 * v);
    assert 20 * b + v == t * (2 * v) + r && 0 <= r < 2 * v;
    assert (2 * t - 1) * v == t * (2 * v) - v;
    assert (2 * t + 1) * v == t * (2 * v) + v;
  }

  /** The rendered amount: quantity with one decimal, a space, the prefix and "B". */
  function Display(a: Amount): (s: string)
    ensures |s| >= 5 + |Prefix(a.unit)|
    ensures s[|s| - |Prefix(a.unit)| - 2..] == " " + Prefix(a.unit) + "B"
  {
    var number := Decimal.FormatTenths(QuantityTenths(a));
    var s := number + " " + Prefix(a.unit) + "B";
    assert s[..|number|] == number;
    assert s[|number|..] == " " + Prefix(a.unit) + "B";
    s
  }

  /** Reads a rendered amount back into its tenths and unit. */
  function ParseDisplay(s: string): (r: Option<(nat, Unit)>)
  {
    if |s| < 2 || s[|s| - 1] != 'B' then None
    else
      var rest := s[..|s| - 1];
      var split: Option<(string, Unit)> :=
        if rest[|rest| - 1] == ' ' then Some((rest[..|rest| - 1], Byte))
        else if |rest| >= 3 && rest[|rest| - 3] == ' ' && ParsePrefix(rest[|rest| - 2..]).Some? then
          Some((rest[..|rest| - 3], ParsePrefix(rest[|rest| - 2..]).value))
        else None;
      match split
      case None => None
      case Some((number, u)) =>
        match Decimal.ParseTenths(number)
        case None => None
        case Some(t) => Some((t, u))
  }

  /** The rendering loses nothing but the rounding: tenths and unit are recovered. */
  lemma DisplayRoundTrip(a: Amount)
    ensures ParseDisplay(Display(a)) == Some((QuantityTenths(a), a.unit))
  {
    var number := Decimal.FormatTenths(QuantityTenths(a));
    var s := Display(a);
    var rest := s[..|s| - 1];
    assert rest == number + " " + Prefix(a.unit);
    Decimal.FormatTenthsRoundTrip(QuantityTenths(a));
    if a.unit == Byte {
      assert rest[..|rest| - 1] == number;
    } else {
      assert rest[|rest| - 2..] == Prefix(a.unit);
      assert rest[..|rest| - 3] == number;
    }
  }

  /** The auto-detection examples of the source's tests, and the boundary cases. */
  lemma AutoDetectExamples()
    ensures AutoDetect(42).unit == Byte
    ensures AutoDetect(1024).unit == Byte
    ensures AutoDetect(2048).unit == Kilo
    ensures AutoDetect(1234567).unit == Mega
    ensures AutoDetect(1234567890).unit == Giga
    ensures AutoDetect(1234567890123).unit == Tera
    ensures AutoDetect(0).unit == Byte && AutoDetect(1).unit == Byte
  {
    Pow1024Table();
  }

  lemma DisplayBytesExample()
    ensures Display(AutoDetect(42)) == "42.0 B"
  {
    AutoDetectExamples();
    assert QuantityTenths(AutoDetect(42)) == 420;
    assert Decimal.NatToString(42) == "42";
  }

  lemma DisplayKiloExample()
    ensures Display(AutoDetect(200124)) == "195.4 KiB"
  {
    Pow1024Table();
    assert AutoDetect(200124).unit == Kilo;
    assert QuantityTenths(AutoDetect(200124)) == 1954;
    assert Decimal.NatToString(195) == "195";
  }

  /** The quantity is never rescaled: 100 bytes shown in GiB round to zero. */
  lemma DisplayGigaExample()
    ensures Display(New(100, Giga)) == "0.0 GiB"
  {
    assert QuantityTenths(New(100, Giga)) == 0;
  }
}
