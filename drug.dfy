/** Drug.java: a drug record with four dose-time slots, a current supply, and a
    recurrence rule (daily, every N days, on chosen weekdays) that decides
    whether a dose is due on a date and how fast the supply depletes. */
module Drugs {
  import opened Exceptions
  import opened JavaInts
  import opened Fractions

  // ---------------------------------------------------------------------------
  // constants

  const FORM_TABLET := 0
  const FORM_INJECTION := 1
  const FORM_SPRAY := 2
  const FORM_DROP := 3
  const FORM_GEL := 4
  const FORM_OTHER := 5

  const TIME_MORNING := 0
  const TIME_NOON := 1
  const TIME_EVENING := 2
  const TIME_NIGHT := 3

  const FREQ_DAILY := 0
  const FREQ_EVERY_N_DAYS := 1
  const FREQ_WEEKDAYS := 2
  const FREQ_EVERY_N_HOURS := 3

  const FREQARG_DAY_MON := 1
  const FREQARG_DAY_TUE := 2
  const FREQARG_DAY_WED := 4
  const FREQARG_DAY_THU := 8
  const FREQARG_DAY_FRI := 16
  const FREQARG_DAY_SAT := 32
  const FREQARG_DAY_SUN := 64

  /** `Constants.MILLIS_PER_DAY`: the milliseconds of a day. */
  const MILLIS_PER_DAY := 86400000

  /** `Constants.WEEK_DAYS`: `Calendar.MONDAY` … `Calendar.SUNDAY`, so the
      position of a Calendar weekday in it is Monday = 0 … Sunday = 6. */
  const WEEK_DAYS: seq<int> := [2, 3, 4, 5, 6, 7, 1]

  // ---------------------------------------------------------------------------
  // the objects a drug refers to

  /** A Fraction object: an immutable value with an identity of its own, which
      `Object.equals` (and so `Drug.equals`) compares. */
  class FractionObject {
    const value: Fraction

    constructor (value: Fraction)
      ensures this.value == value
    {
      this.value := value;
    }
  }

  /** The two things `hasDoseOnDate` reads from a `java.util.Calendar`. */
  datatype Calendar = Calendar(timeInMillis: int, dayOfWeek: int)

  /** The exact value of `getSupplyCorrectionFactor`'s double; dividing by a
      zero bit count gives infinity. */
  datatype Factor = Finite(value: Fraction) | Infinity

  /** The boxed entries of `getFieldValues`. */
  datatype JavaObject =
    | Null
    | JString(s: string)
    | JInteger(i: int)
    | JBoolean(b: bool)
    | JLong(l: int)
    | JDate(time: int)
    | JFraction(ref: FractionObject)

  /** All fields of a drug, for stating what a setter changes. */
  datatype Fields = Fields(
    id: int, name: Option<string>, form: int, active: bool, refillSize: int,
    currentSupply: FractionObject?, doseMorning: FractionObject?, doseNoon: FractionObject?,
    doseEvening: FractionObject?, doseNight: FractionObject?,
    frequency: int, frequencyArg: int, frequencyOrigin: Option<int>, comment: Option<string>)

  // ---------------------------------------------------------------------------
  // bits of a long

  function Pow2(i: nat): (r: nat)
    ensures r >= 1
  {
    if i == 0 then 1 else 2 * Pow2(i - 1)
  }

  /** Bit `i` of `n` in two's complement: `(n & (1 << i)) != 0`. It is set
      exactly when `n` reduced modulo 2^(i+1) is at least 2^i. */
  function TestBit(n: int, i: nat): (r: bool)
    ensures r <==> n % Pow2(i + 1) >= Pow2(i)
  {
    BitByRemainder(n, i);
    (n / Pow2(i)) % 2 == 1
  }

  lemma BitByRemainder(n: int, i: nat)
    ensures (n / Pow2(i)) % 2 == 1 <==> n % Pow2(i + 1) >= Pow2(i)
  {
    var p := Pow2(i);
    assert Pow2(i + 1) == 2 * p;
    var q, m := n / (2 * p), n % (2 * p);
    assert n == q * (2 * p) + m;
    assert q * (2 * p) == (2 * q) * p;
    if m >= p {
      DivModUnique(n, p, 2 * q + 1, m - p);
      DivModUnique(2 * q + 1, 2, q, 1);
    } else {
      DivModUnique(n, p, 2 * q, m);
      DivModUnique(2 * q, 2, q, 0);
    }
  }

  /** The number of set bits among bits `0 .. k-1`. */
  function BitsSet(n: int, k: nat): (r: nat)
    ensures r <= k
  {
    if k == 0 then 0 else BitsSet(n, k - 1) + (if TestBit(n, k - 1) then 1 else 0)
  }

  /** `Long.bitCount`: the set bits of the 64-bit value, none exactly when the
      value is zero as a long. */
  function BitCount(n: int): (r: nat)
    ensures r <= 64
    ensures r == 0 <==> n % Pow2(64) == 0
  {
    NoBitsIffMultiple(n, 64);
    BitsSet(n, 64)
  }

  /** No bit below `k` is set exactly when 2^k divides `n`. */
  lemma {:induction false} NoBitsIffMultiple(n: int, k: nat)
    ensures BitsSet(n, k) == 0 <==> n % Pow2(k) == 0
  {
    if k > 0 {
      NoBitsIffMultiple(n, k - 1);
      var p := Pow2(k - 1);
      assert Pow2(k - 1 + 1) == Pow2(k) == 2 * p;
      HalfRemainder(n, p);
    }
  }

  /** `p` divides `n` and `n` modulo `2p` is below `p` exactly when `2p`
      divides `n`. */
  lemma HalfRemainder(n: int, p: int)
    requires p > 0
    ensures (n % p == 0 && n % (2 * p) < p) <==> n % (2 * p) == 0
  {
    var q, m := n / (2 * p), n % (2 * p);
    assert n == (2 * q) * p + m;
    if m < p {
      DivModUnique(n, p, 2 * q, m);
    } else {
      DivModUnique(n, p, 2 * q + 1, m - p);
    }
  }

  /** `CollectionUtils.indexOf`: the first position of `x`, or -1. */
  function IndexOf(x: int, s: seq<int>): (r: int)
    ensures -1 <= r < |s|
    ensures r == -1 <==> x !in s
    ensures r >= 0 ==> s[r] == x && forall j :: 0 <= j < r ==> s[j] != x
  {
    if |s| == 0 then -1
    else if s[0] == x then 0
    else
      var r := IndexOf(x, s[1..]);
      if r == -1 then -1 else r + 1
  }

  // ---------------------------------------------------------------------------
  // the drug record

  class Drug {
    /** `Entry.id`, the database key. */
    var id: int
    var name: Option<string>
    var form: int
    var active: bool
    /** The doses per refill; 0 switches supply tracking off. */
    var refillSize: int
    var currentSupply: FractionObject?
    var doseMorning: FractionObject?
    var doseNoon: FractionObject?
    var doseEvening: FractionObject?
    var doseNight: FractionObject?
    var frequency: int
    var frequencyArg: int
    /** `frequencyOrigin`, a `Date` in milliseconds, or null. */
    var frequencyOrigin: Option<int>
    var comment: Option<string>

    ghost function State(): Fields
      reads this
    {
      Fields(id, name, form, active, refillSize, currentSupply, doseMorning, doseNoon,
             doseEvening, doseNight, frequency, frequencyArg, frequencyOrigin, comment)
    }

    /** The supply bookkeeping the setters are meant to keep: a non-negative
        refill size and a present, non-negative current supply. */
    predicate InventoryValid()
      reads this
    {
      refillSize >= 0 && currentSupply != null && currentSupply.value.num >= 0
    }

    /** `Drug()`: every Fraction field is a new zero fraction of its own. */
    constructor ()
      ensures id == 0 && name == None && form == FORM_TABLET && active && refillSize == 0
      ensures currentSupply != null && fresh(currentSupply) && currentSupply.value == ZERO
      ensures doseMorning != null && fresh(doseMorning) && doseMorning.value == ZERO
      ensures doseNoon != null && fresh(doseNoon) && doseNoon.value == ZERO
      ensures doseEvening != null && fresh(doseEvening) && doseEvening.value == ZERO
      ensures doseNight != null && fresh(doseNight) && doseNight.value == ZERO
      ensures frequency == FREQ_DAILY && frequencyArg == 0 && frequencyOrigin == None && comment == None
      ensures InventoryValid()
    {
      id := 0;
      name := None;
      form := FORM_TABLET;
      active := true;
      refillSize := 0;
      currentSupply := new FractionObject(ZERO);
      doseMorning := new FractionObject(ZERO);
      doseNoon := new FractionObject(ZERO);
      doseEvening := new FractionObject(ZERO);
      doseNight := new FractionObject(ZERO);
      frequency := FREQ_DAILY;
      frequencyArg := 0;
      frequencyOrigin := None;
      comment := None;
    }

    /** `Drug(name, form, active, refillSize, currentSupply, schedule, frequency,
        frequencyArg, frequencyOrigin)`: the unchecked constructor. Nothing is
        validated; a schedule shorter than four throws, and a null origin
        becomes the instant 0. */
    static method WithFields(name: Option<string>, form: int, active: bool, refillSize: int,
                             currentSupply: FractionObject?, schedule: seq<FractionObject?>,
                             frequency: int, frequencyArg: int, frequencyOrigin: Option<int>)
      returns (r: Result<Drug>)
      ensures r.Err? <==> |schedule| < 4
      ensures r.Err? ==> r.error == ArrayIndexOutOfBoundsException
      ensures r.Ok? ==> fresh(r.value) && r.value.State() == Fields(
        0, name, form, active, refillSize, currentSupply, schedule[0], schedule[1], schedule[2],
        schedule[3], frequency, frequencyArg,
        Some(if frequencyOrigin.Some? then frequencyOrigin.value else 0), None)
    {
      // Java assigns the first five fields before reading `schedule[0]`; the
      // half-built object is unreachable once the index error is thrown.
      if |schedule| < 4 {
        return Err(ArrayIndexOutOfBoundsException);
      }
      var d := new Drug.Assign(name, form, active, refillSize, currentSupply, schedule[0], schedule[1],
                               schedule[2], schedule[3], frequency, frequencyArg,
                               if frequencyOrigin.Some? then frequencyOrigin.value else 0);
      r := Ok(d);
    }

    /** The field assignments of the unchecked constructor. */
    constructor Assign(name: Option<string>, form: int, active: bool, refillSize: int,
                       currentSupply: FractionObject?, doseMorning: FractionObject?, doseNoon: FractionObject?,
                       doseEvening: FractionObject?, doseNight: FractionObject?,
                       frequency: int, frequencyArg: int, frequencyOrigin: int)
      ensures State() == Fields(0, name, form, active, refillSize, currentSupply, doseMorning, doseNoon,
                                doseEvening, doseNight, frequency, frequencyArg, Some(frequencyOrigin), None)
    {
      this.id := 0;
      this.name := name;
      this.form := form;
      this.active := active;
      this.refillSize := refillSize;
      this.currentSupply := currentSupply;
      this.doseMorning := doseMorning;
      this.doseNoon := doseNoon;
      this.doseEvening := doseEvening;
      this.doseNight := doseNight;
      this.frequency := frequency;
      this.frequencyArg := frequencyArg;
      this.frequencyOrigin := Some(frequencyOrigin);
      this.comment := None;
    }

    // -------------------------------------------------------------------------
    // the recurrence rule

    /** `hasDoseOnDate(cal)`. */
    function HasDoseOnDate(cal: Option<Calendar>): (r: Result<bool>)
      reads this
      ensures r.Err? <==>
        cal.None?
        || frequency !in {FREQ_DAILY, FREQ_EVERY_N_DAYS, FREQ_WEEKDAYS}
        || (frequency == FREQ_EVERY_N_DAYS && (frequencyOrigin.None? || frequencyArg == 0))
        || (frequency == FREQ_WEEKDAYS && cal.value.dayOfWeek !in WEEK_DAYS)
      ensures cal.None? ==> r == Err(NullPointerException)
      ensures cal.Some? && frequency == FREQ_DAILY ==> r == Ok(true)
      ensures cal.Some? && frequency !in {FREQ_DAILY, FREQ_EVERY_N_DAYS, FREQ_WEEKDAYS} ==> r == Err(IllegalStateException)
    {
      if cal.None? then Err(NullPointerException)
      else if frequency == FREQ_DAILY then Ok(true)
      else if frequency == FREQ_EVERY_N_DAYS then
        if frequencyOrigin.None? then Err(NullPointerException)
        else
          var diffDays := Abs(frequencyOrigin.value - cal.value.timeInMillis) / MILLIS_PER_DAY;
          if frequencyArg == 0 then Err(ArithmeticException)
          else Ok(Rem(diffDays, frequencyArg) == 0)
      else if frequency == FREQ_WEEKDAYS then HasDoseOnWeekday(cal.value.dayOfWeek)
      else Err(IllegalStateException)
    }

    /** `hasDoseOnWeekday(calWeekday)`: the bit of the weekday's position in
        `WEEK_DAYS`. */
    function HasDoseOnWeekday(calWeekday: int): (r: Result<bool>)
      reads this
      ensures frequency != FREQ_WEEKDAYS ==> r == Err(IllegalStateException)
      ensures frequency == FREQ_WEEKDAYS && calWeekday !in WEEK_DAYS ==> r == Err(IllegalArgumentException)
      ensures frequency == FREQ_WEEKDAYS && calWeekday in WEEK_DAYS ==> r.Ok?
    {
      if frequency != FREQ_WEEKDAYS then Err(IllegalStateException)
      else
        var weekday := IndexOf(calWeekday, WEEK_DAYS);
        if weekday == -1 then Err(IllegalArgumentException)
        else Ok(TestBit(frequencyArg, weekday))
    }

    /** `getSupplyCorrectionFactor()`, as an exact rational. */
    function SupplyCorrectionFactor(): (r: Factor)
      reads this
      ensures frequency != FREQ_EVERY_N_DAYS && frequency != FREQ_WEEKDAYS ==> r == Finite(FromWhole(1))
    {
      if frequency == FREQ_EVERY_N_DAYS then Finite(FromWhole(frequencyArg))
      else if frequency == FREQ_WEEKDAYS then
        var bits := BitCount(frequencyArg);
        if bits == 0 then Infinity else Finite(FromRatio(7, bits).value)
      else Finite(FromWhole(1))
    }

    // -------------------------------------------------------------------------
    // doses

    /** `getSchedule()`: morning, noon, evening, night. */
    function GetSchedule(): (r: seq<FractionObject?>)
      reads this
      ensures |r| == 4
    {
      [doseMorning, doseNoon, doseEvening, doseNight]
    }

    /** `getDose(doseTime)`: the slot of the schedule, or an index error. */
    function GetDose(doseTime: int): (r: Result<FractionObject?>)
      reads this
      ensures r.Err? <==> !(0 <= doseTime < 4)
      ensures r.Err? ==> r.error == ArrayIndexOutOfBoundsException
      ensures r.Ok? ==> r.value == GetSchedule()[doseTime]
    {
      var doses := [doseMorning, doseNoon, doseEvening, doseNight];
      if 0 <= doseTime < |doses| then Ok(doses[doseTime]) else Err(ArrayIndexOutOfBoundsException)
    }

    // -------------------------------------------------------------------------
    // setters

    method SetName(name: Option<string>)
      modifies this
      ensures State() == old(State()).(name := name)
    {
      this.name := name;
    }

    method SetActive(active: bool)
      modifies this
      ensures State() == old(State()).(active := active)
    {
      this.active := active;
    }

    method SetComment(comment: Option<string>)
      modifies this
      ensures State() == old(State()).(comment := comment)
    {
      this.comment := comment;
    }

    /** `setForm(form)`: codes above `FORM_OTHER` are rejected. */
    method SetForm(form: int) returns (s: Status)
      modifies this
      ensures form > FORM_OTHER ==> s == Thrown(IllegalArgumentException) && State() == old(State())
      ensures form <= FORM_OTHER ==> s == Done && State() == old(State()).(form := form)
    {
      if form > FORM_OTHER {
        return Thrown(IllegalArgumentException);
      }
      this.form := form;
      s := Done;
    }

    /** `setFrequency(frequency)`: codes above `FREQ_WEEKDAYS` are rejected;
        switching to daily clears the argument and falls through to clearing
        the origin, as switching to weekdays does. */
    method SetFrequency(frequency: int) returns (s: Status)
      modifies this
      ensures frequency > FREQ_WEEKDAYS ==> s == Thrown(IllegalArgumentException) && State() == old(State())
      ensures frequency <= FREQ_WEEKDAYS ==> s == Done && State() == old(State()).(
        frequency := frequency,
        frequencyArg := if frequency == FREQ_DAILY then 0 else old(frequencyArg),
        frequencyOrigin := if frequency == FREQ_DAILY || frequency == FREQ_WEEKDAYS then None else old(frequencyOrigin))
    {
      if frequency > FREQ_WEEKDAYS {
        return Thrown(IllegalArgumentException);
      }
      this.frequency := frequency;
      if frequency == FREQ_DAILY {
        frequencyArg := 0;
      }
      if frequency == FREQ_DAILY || frequency == FREQ_WEEKDAYS {
        frequencyOrigin := None;
      }
      s := Done;
    }

    /** What `setFrequencyArg` accepts under the current frequency. */
    predicate ArgAccepted(frequencyArg: int)
      reads this
    {
      if frequency == FREQ_EVERY_N_DAYS then frequencyArg > 1
      else if frequency == FREQ_WEEKDAYS then 0 < frequencyArg <= 0x7f
      else frequencyArg == 6 || frequencyArg == 8 || frequencyArg == 12
    }

    /** `setFrequencyArg(frequencyArg)`. */
    method SetFrequencyArg(frequencyArg: int) returns (s: Status)
      modifies this
      ensures old(frequency) !in {FREQ_EVERY_N_DAYS, FREQ_WEEKDAYS, FREQ_EVERY_N_HOURS} ==> s == Thrown(IllegalStateException) && State() == old(State())
      ensures old(frequency) in {FREQ_EVERY_N_DAYS, FREQ_WEEKDAYS, FREQ_EVERY_N_HOURS} && !old(ArgAccepted(frequencyArg)) ==> s == Thrown(IllegalArgumentException) && State() == old(State())
      ensures s == Done <==> old(frequency) in {FREQ_EVERY_N_DAYS, FREQ_WEEKDAYS, FREQ_EVERY_N_HOURS} && old(ArgAccepted(frequencyArg))
      ensures s == Done ==> State() == old(State()).(frequencyArg := frequencyArg)
    {
      if frequency == FREQ_EVERY_N_DAYS {
        if frequencyArg <= 1 {
          return Thrown(IllegalArgumentException);
        }
      } else if frequency == FREQ_WEEKDAYS {
        if frequencyArg <= 0 || frequencyArg > 0x7f {
          return Thrown(IllegalArgumentException);
        }
      } else if frequency == FREQ_EVERY_N_HOURS {
        if frequencyArg != 6 && frequencyArg != 8 && frequencyArg != 12 {
          return Thrown(IllegalArgumentException);
        }
      } else {
        return Thrown(IllegalStateException);
      }
      this.frequencyArg := frequencyArg;
      s := Done;
    }

    /** `setFrequencyOrigin(frequencyOrigin)`, with `DateTime.getOffsetFromMidnight`
        as the parameter `offsetFromMidnight`. Under every-N-days the origin
        must lie at midnight, and a null origin cannot be inspected. */
    method SetFrequencyOrigin(frequencyOrigin: Option<int>, offsetFromMidnight: int -> int) returns (s: Status)
      modifies this
      ensures old(frequency) != FREQ_EVERY_N_DAYS && old(frequency) != FREQ_EVERY_N_HOURS ==> s == Thrown(IllegalStateException) && State() == old(State())
      ensures old(frequency) == FREQ_EVERY_N_DAYS && frequencyOrigin.None? ==> s == Thrown(NullPointerException) && State() == old(State())
      ensures old(frequency) == FREQ_EVERY_N_DAYS && frequencyOrigin.Some? && offsetFromMidnight(frequencyOrigin.value) != 0 ==> s == Thrown(IllegalArgumentException) && State() == old(State())
      ensures s == Done <==> old(frequency) == FREQ_EVERY_N_HOURS || (old(frequency) == FREQ_EVERY_N_DAYS && frequencyOrigin.Some? && offsetFromMidnight(frequencyOrigin.value) == 0)
      ensures s == Done ==> State() == old(State()).(frequencyOrigin := frequencyOrigin)
    {
      if frequency != FREQ_EVERY_N_DAYS && frequency != FREQ_EVERY_N_HOURS {
        return Thrown(IllegalStateException);
      }
      if frequency == FREQ_EVERY_N_DAYS {
        if frequencyOrigin.None? {
          return Thrown(NullPointerException);
        }
        if offsetFromMidnight(frequencyOrigin.value) != 0 {
          return Thrown(IllegalArgumentException);
        }
      }
      this.frequencyOrigin := frequencyOrigin;
      s := Done;
    }

    /** `setRefillSize(refillSize)`: negative sizes are rejected. */
    method SetRefillSize(refillSize: int) returns (s: Status)
      modifies this
      ensures refillSize < 0 ==> s == Thrown(IllegalArgumentException) && State() == old(State())
      ensures refillSize >= 0 ==> s == Done && State() == old(State()).(refillSize := refillSize)
      ensures old(InventoryValid()) ==> InventoryValid()
    {
      if refillSize < 0 {
        return Thrown(IllegalArgumentException);
      }
      this.refillSize := refillSize;
      s := Done;
    }

    /** `setCurrentSupply(currentSupply)` as written: a negative supply is
        rejected (`compareTo(0) == -1`), but a null argument is stored as null,
        because the assignment of `Fraction.ZERO` is overwritten. */
    method SetCurrentSupply(currentSupply: FractionObject?) returns (s: Status)
      modifies this
      ensures currentSupply != null && currentSupply.value.num < 0 ==> s == Thrown(IllegalArgumentException) && State() == old(State())
      ensures currentSupply == null || currentSupply.value.num >= 0 ==> s == Done && State() == old(State()).(currentSupply := currentSupply)
    {
      if currentSupply == null {
        this.currentSupply := new FractionObject(ZERO);
      } else if currentSupply.value.num < 0 {
        return Thrown(IllegalArgumentException);
      }
      this.currentSupply := currentSupply;
      s := Done;
    }

    /** `setCurrentSupply` as intended: null stands for a zero supply. */
    method SetCurrentSupplyOrZero(currentSupply: FractionObject?) returns (s: Status)
      modifies this
      ensures currentSupply != null && currentSupply.value.num < 0 ==> s == Thrown(IllegalArgumentException) && State() == old(State())
      ensures currentSupply != null && currentSupply.value.num >= 0 ==> s == Done && State() == old(State()).(currentSupply := currentSupply)
      ensures currentSupply == null ==> s == Done && this.currentSupply != null && this.currentSupply.value == ZERO && State() == old(State()).(currentSupply := this.currentSupply)
      ensures old(InventoryValid()) ==> InventoryValid()
    {
      if currentSupply == null {
        this.currentSupply := new FractionObject(ZERO);
        return Done;
      } else if currentSupply.value.num < 0 {
        return Thrown(IllegalArgumentException);
      }
      this.currentSupply := currentSupply;
      s := Done;
    }

    /** `setDose(doseTime, value)`: one of the four slots, or an argument error. */
    method SetDose(doseTime: int, value: FractionObject?) returns (s: Status)
      modifies this
      ensures !(0 <= doseTime < 4) ==> s == Thrown(IllegalArgumentException) && State() == old(State())
      ensures 0 <= doseTime < 4 ==> s == Done && GetDose(doseTime) == Ok(value)
      ensures 0 <= doseTime < 4 ==> forall t :: t != doseTime ==> GetDose(t) == old(GetDose(t))
      ensures 0 <= doseTime < 4 ==> State() == old(State()).(
        doseMorning := GetSchedule()[0], doseNoon := GetSchedule()[1],
        doseEvening := GetSchedule()[2], doseNight := GetSchedule()[3])
    {
      if doseTime == TIME_MORNING {
        doseMorning := value;
      } else if doseTime == TIME_NOON {
        doseNoon := value;
      } else if doseTime == TIME_EVENING {
        doseEvening := value;
      } else if doseTime == TIME_NIGHT {
        doseNight := value;
      } else {
        return Thrown(IllegalArgumentException);
      }
      s := Done;
    }

    // -------------------------------------------------------------------------
    // equality

    /** `getFieldValues()`: every field but the id, boxed, in Java's order. */
    function FieldValues(): (r: seq<JavaObject>)
      reads this
      ensures |r| == 13
    {
      [ StringObject(name), JInteger(form), JBoolean(active),
        FractionField(doseMorning), FractionField(doseNoon), FractionField(doseEvening),
        FractionField(doseNight), FractionField(currentSupply),
        JInteger(refillSize), JInteger(frequency), JLong(frequencyArg),
        if frequencyOrigin.Some? then JDate(frequencyOrigin.value) else Null,
        StringObject(comment) ]
    }

    /** `equals(o)`: false for null, true for the same drug, otherwise the field
        values compared pairwise with `Object.equals`. Strings, boxed numbers,
        booleans and dates compare by value; Fraction declares only
        `equals(Number)`, so its objects compare by identity. */
    method Equals(other: Drug?) returns (eq: bool)
      ensures eq <==> other != null && FieldValues() == other.FieldValues()
    {
      if other == null {
        return false;
      }
      if other == this {
        return true;
      }
      var thisMembers := FieldValues();
      var otherMembers := other.FieldValues();
      var i := 0;
      while i != |thisMembers|
        invariant 0 <= i <= |thisMembers|
        invariant thisMembers[..i] == otherMembers[..i]
      {
        if thisMembers[i] == Null && otherMembers[i] == Null {
        } else if thisMembers[i] == Null || otherMembers[i] == Null {
          return false;
        } else if thisMembers[i] != otherMembers[i] {
          return false;
        }
        assert thisMembers[..i + 1] == thisMembers[..i] + [thisMembers[i]];
        assert otherMembers[..i + 1] == otherMembers[..i] + [otherMembers[i]];
        i := i + 1;
      }
      assert thisMembers == thisMembers[..i];
      assert otherMembers == otherMembers[..i];
      eq := true;
    }

    /** `equals` as intended: Fraction fields compared by value. */
    method EqualsByValue(other: Drug?) returns (eq: bool)
      ensures eq <==> other != null && SameValues(FieldValues(), other.FieldValues())
    {
      if other == null {
        return false;
      }
      var thisMembers := FieldValues();
      var otherMembers := other.FieldValues();
      var i := 0;
      while i != |thisMembers|
        invariant 0 <= i <= |thisMembers|
        invariant forall j :: 0 <= j < i ==> ValueEquals(thisMembers[j], otherMembers[j])
      {
        if !ValueEquals(thisMembers[i], otherMembers[i]) {
          return false;
        }
        i := i + 1;
      }
      eq := true;
    }
  }

  function StringObject(s: Option<string>): JavaObject
  {
    if s.Some? then JString(s.value) else Null
  }

  function FractionField(f: FractionObject?): JavaObject
  {
    if f == null then Null else JFraction(f)
  }

  /** Equality of boxed field values with Fraction objects compared by value. */
  predicate ValueEquals(a: JavaObject, b: JavaObject)
  {
    if a.JFraction? && b.JFraction? then a.ref.value == b.ref.value else a == b
  }

  predicate SameValues(xs: seq<JavaObject>, ys: seq<JavaObject>)
  {
    |xs| == |ys| && forall i :: 0 <= i < |xs| ==> ValueEquals(xs[i], ys[i])
  }
}
