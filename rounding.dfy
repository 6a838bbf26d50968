/**
 * Rounding a date to a multiple of a calendar unit
 * (src/core/logic/column/column.factory.js:179-210). A date is seen through
 * its seven fields, finest first: millisecond, second, minute, hour, date,
 * month, year. The chosen field is rounded to a multiple of the offset and
 * every finer field is set to 0.
 */
module Rounding {

  /** The units roundTo accepts; `Day` is an alias of `Date`. */
  datatype Unit = Millisecond | Second | Minute | Hour | Day | Date | Month | Year

  /** How the quotient value / offset is rounded; any midpoint other than 'up' or 'down' rounds to nearest. */
  datatype Midpoint = Up | Down | Nearest

  /** The seven fields of a date, finest first. */
  type Fields = s: seq<int> | |s| == 7 witness [0, 0, 0, 0, 0, 0, 0]

  /** 'day' is renamed 'date' before anything else happens. */
  function Canonical(u: Unit): (c: Unit)
    ensures u == Day ==> c == Date
    ensures u != Day ==> c == u
  {
    if u == Day then Date else u
  }

  /** Index of a unit in the list millisecond .. year. */
  function UnitIndex(u: Unit): (i: nat)
    requires u != Day
    ensures i < 7
  {
    match u
    case Millisecond => 0
    case Second => 1
    case Minute => 2
    case Hour => 3
    case Date => 4
    case Month => 5
    case Year => 6
  }

  /** `offset || 1`: a zero offset means 1. */
  function EffectiveOffset(offset: int): (o: int)
    ensures offset == 0 ==> o == 1
    ensures offset != 0 ==> o == offset
  {
    if offset == 0 then 1 else offset
  }

  /**
   * Math.floor(value / divisor) for integers, as floor division: Dafny's `/`
   * is Euclidean, which floors for a positive divisor; a negative divisor is
   * turned positive by negating both operands.
   */
  function FloorDiv(value: int, divisor: int): int
    requires divisor != 0
  {
    if divisor > 0 then value / divisor else (-value) / (-divisor)
  }

  /**
   * The quotient value / offset rounded as the midpoint says: Math.ceil is
   * minus the floor of the negation, and Math.round(x) is floor(x + 1/2) =
   * floor((2 * value + offset) / (2 * offset)).
   */
  function Quotient(value: int, offset: int, midpoint: Midpoint): int
    requires offset != 0
  {
    match midpoint
    case Up => -FloorDiv(-value, offset)
    case Down => FloorDiv(value, offset)
    case Nearest => FloorDiv(2 * value + offset, 2 * offset)
  }

  /** The rounded value of the field: quotient times offset. */
  function RoundMultiple(value: int, offset: int, midpoint: Midpoint): int
    requires offset != 0
  {
    Quotient(value, offset, midpoint) * offset
  }

  /** The fields after roundTo(date, unit, offset, midpoint). */
  function RoundedFields(fields: Fields, unit: Unit, offset: int, midpoint: Midpoint): Fields
  {
    var i := UnitIndex(Canonical(unit));
    var o := EffectiveOffset(offset);
    seq(7, j requires 0 <= j < 7 =>
      if j < i then 0 else if j == i then RoundMultiple(fields[i], o, midpoint) else fields[j])
  }

  /** roundTo on a date held as its seven fields: rounds in place and zeroes the finer fields. */
  method RoundTo(date: array<int>, unit: Unit, offset: int, midpoint: Midpoint)
    requires date.Length == 7
    modifies date
    ensures date[..] == RoundedFields(old(date[..]), unit, offset, midpoint)
  {
    ghost var before := date[..];
    var u := Canonical(unit);
    var o := EffectiveOffset(offset);
    var index := UnitIndex(u);
    var value := date[index];
    var q;
    match midpoint {
      case Up => q := -FloorDiv(-value, o);
      case Down => q := FloorDiv(value, o);
      case Nearest => q := FloorDiv(2 * value + o, 2 * o);
    }
    date[index] := q * o;
    var i := 0;
    while i < index
      invariant 0 <= i <= index
      invariant forall j :: 0 <= j < i ==> date[j] == 0
      invariant forall j :: i <= j < 7 && j != index ==> date[j] == before[j]
      invariant date[index] == RoundMultiple(before[index], o, midpoint)
    {
      date[i] := 0;
      i := i + 1;
    }
    assert date[..] == RoundedFields(before, unit, offset, midpoint);
  }

  /** Rounding touches only the chosen field and the finer ones, which become 0. */
  lemma RoundedFieldsFrame(fields: Fields, unit: Unit, offset: int, midpoint: Midpoint, j: nat)
    requires j < 7
    ensures var r := RoundedFields(fields, unit, offset, midpoint);
            var i := UnitIndex(Canonical(unit));
            && (j < i ==> r[j] == 0)
            && (j > i ==> r[j] == fields[j])
  {
  }

  /** The chosen field always ends on a multiple of the (effective) offset. */
  lemma RoundedIsMultiple(fields: Fields, unit: Unit, offset: int, midpoint: Midpoint)
    ensures var i := UnitIndex(Canonical(unit));
            RoundedFields(fields, unit, offset, midpoint)[i] % EffectiveOffset(offset) == 0
  {
    var i := UnitIndex(Canonical(unit));
    var o := EffectiveOffset(offset);
    MultipleMod(Quotient(fields[i], o, midpoint), o);
  }

  lemma MultipleMod(q: int, o: int)
    requires o != 0
    ensures (q * o) % o == 0
  {
    DivUnique(q * o, o, q, 0);
  }

  /** A multiple k*b of a positive b with k != 0 is at least b away from 0. */
  lemma NonzeroMultipleIsLarge(k: int, b: int)
    requires b > 0
    ensures k == 0 || k * b >= b || k * b <= -b
  {
    if k > 0 {
      MulNonneg(k - 1, b);
      assert k * b - b == (k - 1) * b;
    } else if k < 0 {
      MulNonneg(-k - 1, b);
      assert -(k * b) - b == (-k - 1) * b;
    }
  }

  lemma MulNonneg(a: int, b: int)
    requires a >= 0 && b >= 0
    ensures a * b >= 0
  {
  }

  /** Euclidean division is unique: a = q*b + r with 0 <= r < |b| fixes a / b and a % b. */
  lemma DivUnique(a: int, b: int, q: int, r: int)
    requires b != 0 && a == q * b + r && 0 <= r < Abs(b)
    ensures a / b == q && a % b == r
  {
    var d, m := a / b, a % b;
    assert d * b + m == q * b + r;
    assert (q - d) * b == m - r;
    if b > 0 {
      NonzeroMultipleIsLarge(q - d, b);
    } else {
      assert (q - d) * b == (d - q) * (-b);
      NonzeroMultipleIsLarge(d - q, -b);
    }
  }

  function Abs(x: int): int
  {
    if x < 0 then -x else x
  }

  /** Floor division brackets the value: q*o <= v < q*o + o for a positive divisor. */
  lemma FloorBrackets(v: int, o: int)
    requires o > 0
    ensures FloorDiv(v, o) * o <= v < FloorDiv(v, o) * o + o
  {
  }

  /** Rounding down lands on the largest multiple not above the value. */
  lemma RoundDownBounds(v: int, o: int)
    requires o > 0
    ensures v - o < RoundMultiple(v, o, Down) <= v
  {
    FloorBrackets(v, o);
  }

  /** Rounding up lands on the smallest multiple not below the value. */
  lemma RoundUpBounds(v: int, o: int)
    requires o > 0
    ensures v <= RoundMultiple(v, o, Up) < v + o
  {
    FloorBrackets(-v, o);
    var q := FloorDiv(-v, o);
    assert RoundMultiple(v, o, Up) == -(q * o);
  }

  /** Rounding to nearest moves by at most half an offset, halves going up. */
  lemma RoundNearestBounds(v: int, o: int)
    requires o > 0
    ensures var r := RoundMultiple(v, o, Nearest);
            -o < 2 * (r - v) <= o
  {
    FloorBrackets(2 * v + o, 2 * o);
    var q := FloorDiv(2 * v + o, 2 * o);
    assert q * (2 * o) == 2 * (q * o);
  }

  /** Rounding an already rounded date changes nothing. */
  lemma RoundingIsIdempotent(fields: Fields, unit: Unit, offset: int, midpoint: Midpoint)
    ensures var r := RoundedFields(fields, unit, offset, midpoint);
            RoundedFields(r, unit, offset, midpoint) == r
  {
    var i := UnitIndex(Canonical(unit));
    var o := EffectiveOffset(offset);
    var r := RoundedFields(fields, unit, offset, midpoint);
    var q := Quotient(fields[i], o, midpoint);
    assert r[i] == q * o;
    ExactQuotient(q, o, midpoint);
    var rr := RoundedFields(r, unit, offset, midpoint);
    assert rr[i] == r[i];
    assert forall j :: 0 <= j < 7 ==> rr[j] == r[j];
  }

  /** A multiple of the offset is its own rounded value, whatever the midpoint. */
  lemma ExactQuotient(q: int, o: int, midpoint: Midpoint)
    requires o != 0
    ensures Quotient(q * o, o, midpoint) == q
  {
    if o > 0 {
      match midpoint {
        case Up =>
          assert -(q * o) == (-q) * o;
          DivUnique(-(q * o), o, -q, 0);
        case Down =>
          DivUnique(q * o, o, q, 0);
        case Nearest =>
          assert 2 * (q * o) + o == q * (2 * o) + o;
          DivUnique(2 * (q * o) + o, 2 * o, q, o);
      }
    } else {
      match midpoint {
        case Up =>
          assert q * o == (-q) * (-o);
          DivUnique(q * o, -o, -q, 0);
        case Down =>
          assert -(q * o) == q * (-o);
          DivUnique(-(q * o), -o, q, 0);
        case Nearest =>
          assert -(2 * (q * o) + o) == q * (-2 * o) + (-o);
          DivUnique(-(2 * (q * o) + o), -2 * o, q, -o);
      }
    }
  }

  /** 'day' rounds exactly like 'date'. */
  lemma DayRoundsAsDate(fields: Fields, offset: int, midpoint: Midpoint)
    ensures RoundedFields(fields, Day, offset, midpoint) == RoundedFields(fields, Date, offset, midpoint)
  {
  }

  /** An offset of 0 rounds like an offset of 1, which leaves the chosen field as it is. */
  lemma ZeroOffsetIsOne(fields: Fields, unit: Unit, midpoint: Midpoint)
    ensures RoundedFields(fields, unit, 0, midpoint) == RoundedFields(fields, unit, 1, midpoint)
    ensures RoundedFields(fields, unit, 0, midpoint)[UnitIndex(Canonical(unit))] == fields[UnitIndex(Canonical(unit))]
  {
    var i := UnitIndex(Canonical(unit));
    ExactQuotient(fields[i], 1, midpoint);
  }
}
