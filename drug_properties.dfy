/** What Drug's recurrence rule, supply correction factor, setters and equality
    promise, proved about the model in drug.dfy. */
module DrugProperties {
  import opened Exceptions
  import opened JavaInts
  import opened Fractions
  import opened Drugs

  // ---------------------------------------------------------------------------
  // every N days

  /** Under every-N-days, an instant `k` whole days and `offset` milliseconds
      away from the origin (on either side) is due exactly when N divides `k`. */
  lemma EveryNDaysDueIff(d: Drug, k: nat, offset: int, after: bool, dayOfWeek: int)
    requires d.frequency == FREQ_EVERY_N_DAYS && d.frequencyOrigin.Some? && d.frequencyArg != 0
    requires 0 <= offset < MILLIS_PER_DAY
    ensures var o := d.frequencyOrigin.value;
            var t := if after then o + (k * MILLIS_PER_DAY + offset) else o - (k * MILLIS_PER_DAY + offset);
            d.HasDoseOnDate(Some(Calendar(t, dayOfWeek))) == Ok(k % Abs(d.frequencyArg) == 0)
  {
    var o := d.frequencyOrigin.value;
    var t := if after then o + (k * MILLIS_PER_DAY + offset) else o - (k * MILLIS_PER_DAY + offset);
    assert Abs(o - t) == k * MILLIS_PER_DAY + offset;
    DivModUnique(k * MILLIS_PER_DAY + offset, MILLIS_PER_DAY, k, offset);
    RemZeroIffDivides(k, d.frequencyArg);
  }

  /** The origin itself is always due. */
  lemma OriginIsDue(d: Drug, dayOfWeek: int)
    requires d.frequency == FREQ_EVERY_N_DAYS && d.frequencyOrigin.Some? && d.frequencyArg != 0
    ensures d.HasDoseOnDate(Some(Calendar(d.frequencyOrigin.value, dayOfWeek))) == Ok(true)
  {
    EveryNDaysDueIff(d, 0, 0, true, dayOfWeek);
  }

  /** From the origin on, the answer repeats every N days. */
  lemma EveryNDaysPeriodic(d: Drug, t: int, dayOfWeek: int, laterDayOfWeek: int)
    requires d.frequency == FREQ_EVERY_N_DAYS && d.frequencyOrigin.Some? && d.frequencyArg > 0
    requires d.frequencyOrigin.value <= t
    ensures d.HasDoseOnDate(Some(Calendar(t + d.frequencyArg * MILLIS_PER_DAY, laterDayOfWeek)))
         == d.HasDoseOnDate(Some(Calendar(t, dayOfWeek)))
  {
    var o, n := d.frequencyOrigin.value, d.frequencyArg;
    var k, offset := (t - o) / MILLIS_PER_DAY, (t - o) % MILLIS_PER_DAY;
    assert Calendar(t, dayOfWeek) == Calendar(o + (k * MILLIS_PER_DAY + offset), dayOfWeek);
    EveryNDaysDueIff(d, k, offset, true, dayOfWeek);
    assert Calendar(t + n * MILLIS_PER_DAY, laterDayOfWeek)
        == Calendar(o + ((k + n) * MILLIS_PER_DAY + offset), laterDayOfWeek);
    EveryNDaysDueIff(d, k + n, offset, true, laterDayOfWeek);
    var q, r := k / n, k % n;
    assert k + n == (q + 1) * n + r;
    DivModUnique(k + n, n, q + 1, r);
  }

  /** An origin on 2011-09-07 (day 15224 of the epoch) with N = 2: the 7th and
      the 9th are due, the 8th is not. */
  lemma EveryOtherDayExample(d: Drug)
    requires d.frequency == FREQ_EVERY_N_DAYS && d.frequencyArg == 2
    requires d.frequencyOrigin == Some(15224 * MILLIS_PER_DAY)
    ensures d.HasDoseOnDate(Some(Calendar(15224 * MILLIS_PER_DAY, 4))) == Ok(true)
    ensures d.HasDoseOnDate(Some(Calendar(15225 * MILLIS_PER_DAY, 5))) == Ok(false)
    ensures d.HasDoseOnDate(Some(Calendar(15226 * MILLIS_PER_DAY, 6))) == Ok(true)
  {
    EveryNDaysDueIff(d, 0, 0, true, 4);
    EveryNDaysDueIff(d, 1, 0, true, 5);
    EveryNDaysDueIff(d, 2, 0, true, 6);
  }

  // ---------------------------------------------------------------------------
  // weekdays

  /** `WEEK_DAYS` lists each Calendar weekday once. */
  lemma WeekDaysPosition(i: int)
    requires 0 <= i < 7
    ensures IndexOf(WEEK_DAYS[i], WEEK_DAYS) == i
  {
    var r := IndexOf(WEEK_DAYS[i], WEEK_DAYS);
    assert forall k :: 0 <= k < 7 ==> WEEK_DAYS[k] == if k < 6 then k + 2 else 1;
  }

  /** Under weekdays, the Calendar weekday at position `i` of `WEEK_DAYS`
      (Monday = 0 … Sunday = 6) is due exactly when bit `i` of the mask is set. */
  lemma WeekdayDueIffBit(d: Drug, i: int, t: int)
    requires d.frequency == FREQ_WEEKDAYS && 0 <= i < 7
    ensures d.HasDoseOnDate(Some(Calendar(t, WEEK_DAYS[i]))) == Ok(TestBit(d.frequencyArg, i))
  {
    WeekDaysPosition(i);
  }

  /** The day flags are the bits 0 … 6: each flag makes exactly its own
      weekday due. */
  lemma DayFlagsAreBits()
    ensures [FREQARG_DAY_MON, FREQARG_DAY_TUE, FREQARG_DAY_WED, FREQARG_DAY_THU,
             FREQARG_DAY_FRI, FREQARG_DAY_SAT, FREQARG_DAY_SUN]
         == [Pow2(0), Pow2(1), Pow2(2), Pow2(3), Pow2(4), Pow2(5), Pow2(6)]
    ensures forall i, j :: 0 <= i < 7 && 0 <= j < 7 ==> (TestBit(Pow2(i), j) <==> i == j)
  {
    forall i, j | 0 <= i < 7 && 0 <= j < 7
      ensures TestBit(Pow2(i), j) <==> i == j
    {
      PowerBit(i, j);
    }
  }

  lemma PowerBit(i: nat, j: nat)
    ensures TestBit(Pow2(i), j) <==> i == j
  {
    assert Pow2(j + 1) == 2 * Pow2(j);
    if i <= j {
      assert Pow2(i) <= Pow2(j) && (i < j ==> Pow2(i) < Pow2(j)) by {
        var k := j - i;
        Pow2Split(i, k);
        assert i + k == j;
      }
      DivModUnique(Pow2(i), Pow2(j + 1), 0, Pow2(i));
    } else {
      var k := i - j - 1;
      assert Pow2(i) == Pow2(k) * Pow2(j + 1) by {
        Pow2Split(k, j + 1);
        assert k + (j + 1) == i;
      }
      DivModUnique(Pow2(i), Pow2(j + 1), Pow2(k), 0);
    }
  }

  lemma {:induction false} Pow2Split(a: nat, b: nat)
    ensures Pow2(a + b) == Pow2(a) * Pow2(b)
    ensures b > 0 ==> Pow2(a + b) > Pow2(a)
    decreases b
  {
    if b > 0 {
      Pow2Split(a, b - 1);
      assert Pow2(a + b) == 2 * Pow2(a + b - 1);
    }
  }

  /** Monday and Wednesday: mask `FREQARG_DAY_MON | FREQARG_DAY_WED` = 5 makes
      Monday and Wednesday due and Tuesday not. */
  lemma MondayWednesdayExample(d: Drug, t: int)
    requires d.frequency == FREQ_WEEKDAYS && d.frequencyArg == FREQARG_DAY_MON + FREQARG_DAY_WED
    ensures d.HasDoseOnDate(Some(Calendar(t, 2))) == Ok(true)
    ensures d.HasDoseOnDate(Some(Calendar(t, 3))) == Ok(false)
    ensures d.HasDoseOnDate(Some(Calendar(t, 4))) == Ok(true)
  {
    WeekdayDueIffBit(d, 0, t);
    WeekdayDueIffBit(d, 1, t);
    WeekdayDueIffBit(d, 2, t);
    LowBitsOfFive(d.frequencyArg);
  }

  /** 5 = 0b101: bits 0 and 2 are set, bit 1 is not. */
  lemma LowBitsOfFive(n: int)
    requires n == 5
    ensures TestBit(n, 0) && !TestBit(n, 1) && TestBit(n, 2)
  {
    assert Pow2(1) == 2 && Pow2(2) == 4;
  }

  // ---------------------------------------------------------------------------
  // the supply correction factor

  /** Under every-N-days the factor is N: one dose every N days. */
  lemma EveryNDaysFactor(d: Drug)
    requires d.frequency == FREQ_EVERY_N_DAYS
    ensures d.SupplyCorrectionFactor().Finite?
    ensures Denotes(d.SupplyCorrectionFactor().value, d.frequencyArg, 1)
  {
  }

  /** The number of weekdays among the first `k` of `WEEK_DAYS` on which a dose is due. */
  function DueWeekdays(d: Drug, k: nat): (r: nat)
    requires k <= 7
    reads d
    ensures r <= k
  {
    if k == 0 then 0
    else DueWeekdays(d, k - 1) + (if d.HasDoseOnWeekday(WEEK_DAYS[k - 1]) == Ok(true) then 1 else 0)
  }

  lemma {:induction false} DueWeekdaysCountsBits(d: Drug, k: nat)
    requires d.frequency == FREQ_WEEKDAYS && k <= 7
    ensures DueWeekdays(d, k) == BitsSet(d.frequencyArg, k)
  {
    if k > 0 {
      DueWeekdaysCountsBits(d, k - 1);
      WeekDaysPosition(k - 1);
    }
  }

  /** Under weekdays with a valid mask, the factor is 7 over the number of due
      weekdays: the average gap in days between doses. */
  lemma WeekdayFactorIsAverageGap(d: Drug)
    requires d.frequency == FREQ_WEEKDAYS && 0 < d.frequencyArg <= 0x7f
    ensures 1 <= DueWeekdays(d, 7) <= 7
    ensures d.SupplyCorrectionFactor().Finite?
    ensures Denotes(d.SupplyCorrectionFactor().value, 7, DueWeekdays(d, 7))
  {
    var n := d.frequencyArg;
    var bits := BitCount(n);
    BitCountOfMask(n);
    DueWeekdaysCountsBits(d, 7);
    assert bits == DueWeekdays(d, 7);
    var f := FromRatio(7, bits);
    assert f.Ok? && Denotes(f.value, 7, bits);
    assert d.SupplyCorrectionFactor() == Finite(f.value);
  }

  /** `Long.bitCount` of a 7-bit mask counts its bits 0 … 6, at least one of
      which is set when the mask is not zero. */
  lemma BitCountOfMask(n: int)
    requires 0 < n < 128
    ensures BitCount(n) == BitsSet(n, 7) >= 1
  {
    BitsSetAbove(n, 64);
    if BitsSet(n, 7) == 0 {
      NoBitsIffMultiple(n, 7);
      assert Pow2(7) == 128;
      DivModUnique(n, 128, 0, n);
    }
  }

  /** Bits 7 and above of a 7-bit number are clear. */
  lemma {:induction false} BitsSetAbove(n: int, k: nat)
    requires 0 <= n < 128 && 7 <= k
    ensures BitsSet(n, k) == BitsSet(n, 7)
    decreases k
  {
    if k > 7 {
      BitsSetAbove(n, k - 1);
      Pow2Split(7, k - 1 - 7);
      assert Pow2(7) == 128;
      DivModUnique(n, Pow2(k - 1), 0, n);
    }
  }

  /** A number whose bits 0 … k-1 are clear is a multiple of 2^k. */
  // ---------------------------------------------------------------------------
  // equality

  /** `getFieldValues` leaves out the id: drugs that differ only in their id
      have the same field values, so `equals` holds between them. */
  lemma FieldValuesIgnoreId(d: Drug, e: Drug)
    requires d.State().(id := 0) == e.State().(id := 0)
    ensures d.FieldValues() == e.FieldValues()
  {
    assert d.State().(id := 0).name == e.State().(id := 0).name;
  }

  /** Drugs whose doses at one time differ in value are unequal, by identity
      and by value. */
  lemma DifferentDosesAreUnequal(d: Drug, e: Drug, t: int)
    requires 0 <= t < 4
    requires d.GetDose(t).value != null && e.GetDose(t).value != null
    requires d.GetDose(t).value.value != e.GetDose(t).value.value
    ensures d.FieldValues() != e.FieldValues()
    ensures !SameValues(d.FieldValues(), e.FieldValues())
  {
    assert d.FieldValues()[3 + t] == FractionField(d.GetDose(t).value);
    assert e.FieldValues()[3 + t] == FractionField(e.GetDose(t).value);
  }

  /** Equal by identity implies equal by value. */
  lemma IdentityImpliesSameValues(xs: seq<JavaObject>, ys: seq<JavaObject>)
    requires xs == ys
    ensures SameValues(xs, ys)
  {
    forall i | 0 <= i < |xs|
      ensures ValueEquals(xs[i], ys[i])
    {
    }
  }

  // ---------------------------------------------------------------------------
  // worked examples, driven through the setters

  /** Every other day from 2011-09-07 (midnight UTC as the origin's offset). */
  method EveryOtherDayScenario() returns (sept7: Result<bool>, sept8: Result<bool>, sept9: Result<bool>)
    ensures sept7 == Ok(true) && sept8 == Ok(false) && sept9 == Ok(true)
  {
    var d := new Drug();
    var s := d.SetFrequency(FREQ_EVERY_N_DAYS);
    s := d.SetFrequencyArg(2);
    s := d.SetFrequencyOrigin(Some(15224 * MILLIS_PER_DAY), t => t % MILLIS_PER_DAY);
    EveryOtherDayExample(d);
    sept7 := d.HasDoseOnDate(Some(Calendar(15224 * MILLIS_PER_DAY, 4)));
    sept8 := d.HasDoseOnDate(Some(Calendar(15225 * MILLIS_PER_DAY, 5)));
    sept9 := d.HasDoseOnDate(Some(Calendar(15226 * MILLIS_PER_DAY, 6)));
  }

  /** Monday and Wednesday selected: Monday and Wednesday due, Tuesday not. */
  method MondayWednesdayScenario() returns (monday: Result<bool>, tuesday: Result<bool>, wednesday: Result<bool>)
    ensures monday == Ok(true) && tuesday == Ok(false) && wednesday == Ok(true)
  {
    var d := new Drug();
    var s := d.SetFrequency(FREQ_WEEKDAYS);
    s := d.SetFrequencyArg(FREQARG_DAY_MON + FREQARG_DAY_WED);
    MondayWednesdayExample(d, 0);
    monday := d.HasDoseOnDate(Some(Calendar(0, 2)));
    tuesday := d.HasDoseOnDate(Some(Calendar(0, 3)));
    wednesday := d.HasDoseOnDate(Some(Calendar(0, 4)));
  }

  /** The factor is 3 for every third day, 7/2 for two weekdays and 1 daily. */
  method SupplyFactorScenario() returns (everyThirdDay: Factor, twoWeekdays: Factor, daily: Factor)
    ensures everyThirdDay == Finite(FromWhole(3))
    ensures twoWeekdays.Finite? && twoWeekdays.value == Rational(7, 2)
    ensures daily == Finite(FromWhole(1))
  {
    var d := new Drug();
    daily := d.SupplyCorrectionFactor();
    var s := d.SetFrequency(FREQ_EVERY_N_DAYS);
    s := d.SetFrequencyArg(3);
    everyThirdDay := d.SupplyCorrectionFactor();
    s := d.SetFrequency(FREQ_WEEKDAYS);
    s := d.SetFrequencyArg(FREQARG_DAY_MON + FREQARG_DAY_WED);
    TwoWeekdaysFactor(d);
    twoWeekdays := d.SupplyCorrectionFactor();
  }

  /** Monday and Wednesday: two due days a week, one dose every 7/2 days. */
  lemma TwoWeekdaysFactor(d: Drug)
    requires d.frequency == FREQ_WEEKDAYS && d.frequencyArg == 5
    ensures DueWeekdays(d, 7) == 2
    ensures d.SupplyCorrectionFactor().Finite? && d.SupplyCorrectionFactor().value == Rational(7, 2)
  {
    BitCountOfMask(5);
    BitsOfFive();
    assert BitCount(d.frequencyArg) == 2;
    var f := FromRatio(7, 2).value;
    assert d.SupplyCorrectionFactor() == Finite(f);
    assert FindGcd(7, 2) == 1;
    CanonicalForm(f, Rational(7, 2));
    DueWeekdaysCountsBits(d, 7);
  }

  /** 5 = 0b101: bits 0 and 2. */
  lemma BitsOfFive()
    ensures BitsSet(5, 7) == 2
  {
    assert Pow2(0) == 1 && Pow2(1) == 2 && Pow2(2) == 4 && Pow2(3) == 8;
    assert Pow2(4) == 16 && Pow2(5) == 32 && Pow2(6) == 64;
    assert BitsSet(5, 1) == 1;
    assert BitsSet(5, 2) == 1;
    assert BitsSet(5, 3) == 2;
    assert BitsSet(5, 4) == 2;
    assert BitsSet(5, 5) == 2;
    assert BitsSet(5, 6) == 2;
  }

  /** Under weekdays the mask must lie in 1 … 127. */
  method WeekdayMaskBounds() returns (zero: Status, tooLarge: Status, allDays: Status)
    ensures zero == Thrown(IllegalArgumentException)
    ensures tooLarge == Thrown(IllegalArgumentException)
    ensures allDays == Done
  {
    var d := new Drug();
    var s := d.SetFrequency(FREQ_WEEKDAYS);
    zero := d.SetFrequencyArg(0);
    tooLarge := d.SetFrequencyArg(128);
    allDays := d.SetFrequencyArg(127);
  }

  /** Two drugs made from the same field objects that differ only in id are equal. */
  method IdOnlyDifferenceScenario() returns (eq: bool)
    ensures eq
  {
    var zero := new FractionObject(ZERO);
    var one := new FractionObject(FromWhole(1));
    var schedule := [one, zero, one, zero];
    var r1 := Drug.WithFields(Some("Aspirin"), FORM_TABLET, true, 30, one, schedule, FREQ_DAILY, 0, None);
    var r2 := Drug.WithFields(Some("Aspirin"), FORM_TABLET, true, 30, one, schedule, FREQ_DAILY, 0, None);
    var d, e := r1.value, r2.value;
    e.id := 7;
    FieldValuesIgnoreId(d, e);
    eq := d.Equals(e);
  }

  /** As written: two new drugs, field for field the same values, compare
      unequal, because each holds Fraction objects of its own. */
  method NewDrugsCompareUnequal() returns (eq: bool)
    ensures !eq
  {
    var d := new Drug();
    var e := new Drug();
    assert d.FieldValues()[3] != e.FieldValues()[3];
    eq := d.Equals(e);
  }

  /** As intended: compared by value, two new drugs are equal. */
  method NewDrugsCompareEqualByValue() returns (eq: bool)
    ensures eq
  {
    var d := new Drug();
    var e := new Drug();
    eq := d.EqualsByValue(e);
  }

  /** As written: `setCurrentSupply(null)` leaves a null supply behind, which
      breaks the supply bookkeeping. */
  method NullSupplyIsStoredAsNull() returns (supply: FractionObject?, valid: bool)
    ensures supply == null && !valid
  {
    var d := new Drug();
    var s := d.SetCurrentSupply(null);
    supply := d.currentSupply;
    valid := d.InventoryValid();
  }

  /** As intended: a null supply is stored as zero and the bookkeeping holds. */
  method NullSupplyIsStoredAsZero() returns (supply: FractionObject?, valid: bool)
    ensures supply != null && supply.value == ZERO && valid
  {
    var d := new Drug();
    var s := d.SetCurrentSupplyOrZero(null);
    supply := d.currentSupply;
    valid := d.InventoryValid();
  }

  /** As written: a drug switched to every-N-days keeps the argument 0 of a
      new drug, and asking whether a dose is due then divides by zero. */
  method ZeroArgumentDividesByZero() returns (r: Result<bool>)
    ensures r == Err(ArithmeticException)
  {
    var d := new Drug();
    var s := d.SetFrequency(FREQ_EVERY_N_DAYS);
    s := d.SetFrequencyOrigin(Some(0), t => t % MILLIS_PER_DAY);
    r := d.HasDoseOnDate(Some(Calendar(0, 5)));
  }
}
