# RxDroid fractions and drug schedules in Dafny

This project models two components of RxDroid, an Android medication reminder.

**Fraction** is an exact rational number for dose amounts and supplies. The model covers:

- construction, which checks its arguments and reduces to lowest terms with the sign in the numerator;
- Euclid's greatest common divisor and the least-common-multiple loop;
- addition, subtraction and negation, also with whole numbers;
- `toString` in mixed (`"1 1/2"`) and plain (`"3/2"`) display mode;
- `decode`, which parses that text back.

**Drug** is the drug record. The model covers:

- its fields: four dose-time slots (morning, noon, evening, night), a current supply and a refill size;
- the recurrence rule: daily, every N days from an origin date, or on chosen weekdays;
- the validated setters that keep those fields sensible;
- the trusted bulk constructor;
- `hasDoseOnDate`, which says whether a dose is due on a date;
- the supply correction factor;
- `equals` over the field values.

Layout:

- `exceptions.dfy`: the Java exceptions, with `Result`, `Status` and `Option` to carry them.
- `java_ints.dfy`: Java's truncating `/` and `%` (`Quot`, `Rem`) and divisibility facts.
- `fraction.dfy`:
  - the `Fraction` type, a subset type of reduced rationals with a positive denominator;
  - `FindGcd`, `Lcm` and the `FindLcm` loop;
  - `Construct`, together with its step-by-step method `ConstructFields`;
  - the constructors and the arithmetic.
  - The central lemma is `CanonicalForm`: two reduced fractions of equal value are identical. Commutativity, inverses and the text round trip all rest on it.
- `fraction_text.dfy`:
  - `Integer.toString`, `String.trim` and `Integer.parseInt`;
  - the decode regular expression, matched by a hand-written parser;
  - `ToText`;
  - `Decode`, proved equal to the function `Decoded`, and the round trip `Decoded(ToText(f, mixed)) == Ok(f)`.
- `drug.dfy`:
  - the class `Drug`, whose fields the setters update in place;
  - a class `FractionObject`, which gives each Fraction object an identity;
  - `Drug`'s constructors, reads and setters, and the two equality methods.
- `drug_properties.dfy`:
  - lemmas about the recurrence rule and the correction factor;
  - the worked examples, run through the setters;
  - both halves of each finding below.

In these places the model follows what the code does rather than what its comments and Javadoc suggest:

- `setCurrentSupply(null)` stores null (see Findings).
- `setFrequency` rejects only codes above `FREQ_WEEKDAYS`. That rejects `FREQ_EVERY_N_HOURS` and accepts negative codes.
- `setForm` accepts negative form codes.
- `equals` compares Fraction fields by identity (see Findings).
- `hasDoseOnDate` under every-N-days takes the day count modulo `frequencyArg`. A new drug switched to every N days keeps the argument 0, so the call throws ArithmeticException (`DrugProperties.ZeroArgumentDividesByZero`).

## Model

| member | source | states |
|---|---|---|
| `Fractions.FindGcd` | trunk/src/at/caspase/rxdroid/Fraction.java:266-271 | the recursion ends, and returns a positive number unless both inputs are zero |
| `Fractions.FindGcdIsGcd` | trunk/src/at/caspase/rxdroid/Fraction.java:266-271 | `findGCD` divides both inputs, and every common divisor divides it and is no larger |
| `Fractions.Lcm` | trunk/src/at/caspase/rxdroid/Fraction.java:250-264 | for positive inputs, `n1*n2/gcd` is positive and both inputs divide it |
| `Fractions.LcmDividesCommonMultiples` | trunk/src/at/caspase/rxdroid/Fraction.java:250-264 | it is the least common multiple: it divides every common multiple |
| `Fractions.FindLcm` | trunk/src/at/caspase/rxdroid/Fraction.java:250-264 | the swap-and-remainder do-while loop terminates and returns `Lcm(n1, n2)` |
| `Fractions.Construct` | trunk/src/at/caspase/rxdroid/Fraction.java:225-248 | throws IllegalArgumentException exactly when `denominator <= 0`, or `wholeNum != 0` with a negative nominator; otherwise returns a reduced fraction whose value is `wholeNum*d + n` over `d`, or `wholeNum*d - n` over `d` for a negative whole part |
| `Fractions.ConstructFields` | trunk/src/at/caspase/rxdroid/Fraction.java:225-248 | the step-by-step assignments of `construct` produce exactly `Construct`'s result, error or fraction |
| `Fractions.FromWhole` | trunk/src/at/caspase/rxdroid/Fraction.java:37-39 | `Fraction(int)` is the whole number over one |
| `Fractions.FromRatio` | trunk/src/at/caspase/rxdroid/Fraction.java:49-51 | `Fraction(n, d)` throws exactly when `d <= 0`; otherwise its value is `n/d` |
| `Fractions.CanonicalForm` | trunk/src/at/caspase/rxdroid/Fraction.java:241-247 | the reduction is canonical: two reduced fractions of equal value have identical fields |
| `Fractions.FromRatioOfReduced` | trunk/src/at/caspase/rxdroid/Fraction.java:49-51 | constructing from a reduced numerator and denominator gives that fraction unchanged |
| `Fractions.Plus` | trunk/src/at/caspase/rxdroid/Fraction.java:68-89 | `plus` works over the lcm of differing denominators, or directly over a shared one; its value is `a + b` |
| `Fractions.PlusCommutes` | trunk/src/at/caspase/rxdroid/Fraction.java:68-89 | `a.plus(b)` and `b.plus(a)` have identical numerator and denominator |
| `Fractions.PlusZero` | trunk/src/at/caspase/rxdroid/Fraction.java:68-89 | adding `ZERO` returns the same fraction |
| `Fractions.PlusWhole` | trunk/src/at/caspase/rxdroid/Fraction.java:91-93 | `plus(Integer)` adds the whole number: value `(num + w*den)/den` |
| `Fractions.Negate` | trunk/src/at/caspase/rxdroid/Fraction.java:109-111 | `negate` flips the numerator's sign and keeps the denominator |
| `Fractions.Minus` | trunk/src/at/caspase/rxdroid/Fraction.java:98-100 | `minus(x)` is `plus(x.negate())`, with value `a - b` |
| `Fractions.MinusWhole` | trunk/src/at/caspase/rxdroid/Fraction.java:102-104 | `minus(Integer)` subtracts the whole number: value `(num - w*den)/den` |
| `Fractions.PlusNegateIsZero` | trunk/src/at/caspase/rxdroid/Fraction.java:98-111 | `a.plus(a.negate())` and `a.minus(a)` are 0/1 |
| `Fractions.MinusUndoesPlus` | trunk/src/at/caspase/rxdroid/Fraction.java:68-100 | `a.plus(b).minus(b)` is `a` |
| `FractionText.NatToStringValue` | trunk/src/at/caspase/rxdroid/Fraction.java:132 | the decimal digits `Integer.toString` writes read back as the same number |
| `FractionText.ToText` | trunk/src/at/caspase/rxdroid/Fraction.java:128-146 | `toString` writes a slash exactly when the denominator is not 1, in both display modes |
| `FractionText.MatchesRatio` | trunk/src/at/caspase/rxdroid/Fraction.java:17 | the pattern matches `"N/D"` with the whole-number group absent, N as nominator and D as denominator |
| `FractionText.MatchesMixed` | trunk/src/at/caspase/rxdroid/Fraction.java:17 | the pattern matches `"W N/D"` with groups W, N and D |
| `FractionText.NoSlashNoMatch` | trunk/src/at/caspase/rxdroid/Fraction.java:17 | text without a `/` never matches the pattern |
| `FractionText.MatchPattern` | trunk/src/at/caspase/rxdroid/Fraction.java:17 | the anchored match of the decode pattern: any text it matches contains a `/` |
| `FractionText.MatchesRatioBeforeTerminator` | trunk/src/at/caspase/rxdroid/Fraction.java:17 | `$` also matches just before a final `\u0085`, `\u2028` or `\u2029`: `"N/D"` followed by one of them matches with the same groups as `"N/D"` |
| `FractionText.TrimOfNoOuterBlank` | trunk/src/at/caspase/rxdroid/Fraction.java:202 | `String.trim` leaves text unchanged when its first and last characters are above U+0020 |
| `FractionText.TrimOfBlank` | trunk/src/at/caspase/rxdroid/Fraction.java:202 | trimming text made only of characters up to U+0020 leaves nothing |
| `FractionText.ParseInt` | trunk/src/at/caspase/rxdroid/Fraction.java:210 | `Integer.parseInt` fails only with NumberFormatException |
| `FractionText.ParseIntOf` | trunk/src/at/caspase/rxdroid/Fraction.java:210 | `Integer.parseInt` of `Integer.toString(n)` is `n` |
| `FractionText.Decoded` | trunk/src/at/caspase/rxdroid/Fraction.java:168-218 | `decode` fails only with NumberFormatException, or with the IllegalArgumentException of `new Fraction(wholeNum, nominator, denominator)` |
| `FractionText.Decode` | trunk/src/at/caspase/rxdroid/Fraction.java:168-218 | `decode`'s locals, overwritten from the match or from the fallback, produce exactly `Decoded(s)` |
| `FractionText.DecodeBlank` | trunk/src/at/caspase/rxdroid/Fraction.java:202-205 | empty or blank text throws NumberFormatException |
| `FractionText.DecodeWhole` | trunk/src/at/caspase/rxdroid/Fraction.java:207-210 | a bare integer, which the pattern does not match, decodes through the fallback to that whole number |
| `FractionText.DecodeRatio` | trunk/src/at/caspase/rxdroid/Fraction.java:189-197 | `"N/D"` decodes to `new Fraction(N, D)`; `"N/0"` throws NumberFormatException |
| `FractionText.DecodeMixed` | trunk/src/at/caspase/rxdroid/Fraction.java:186-197 | `"W N/D"` decodes to `new Fraction(W, N, D)`, including its IllegalArgumentException for a negative N; `"W N/0"` throws NumberFormatException |
| `FractionText.DecodeToText` | trunk/src/at/caspase/rxdroid/Fraction.java:128-218 | `decode(f.toString())` is `f` in both display modes |
| `FractionText.DecodeRejects` | trunk/src/at/caspase/rxdroid/Fraction.java:196-205 | `""`, `"   "` and `"1/0"` throw NumberFormatException |
| `Drugs.IndexOf` | src/at/caspase/rxdroid/db/Drug.java:499 | the weekday's first position in `WEEK_DAYS`, or -1 exactly when it is absent |
| `Drugs.TestBit` | src/at/caspase/rxdroid/db/Drug.java:503 | `(frequencyArg & (1 << i)) != 0` holds exactly when the value modulo 2^(i+1) is at least 2^i |
| `Drugs.BitCount` | src/at/caspase/rxdroid/db/Drug.java:266 | `Long.bitCount` is at most 64, and zero exactly when the value is zero as a 64-bit long |
| `Drugs.NoBitsIffMultiple` | src/at/caspase/rxdroid/db/Drug.java:266 | no bit below `k` is set exactly when 2^k divides the value |
| `Drugs.Drug.constructor` | src/at/caspase/rxdroid/db/Drug.java:104-161 | the field defaults: active, daily, argument 0, no origin, and five fresh zero fractions; the supply bookkeeping holds |
| `Drugs.Drug.WithFields` | src/at/caspase/rxdroid/db/Drug.java:170-185 | the unchecked constructor copies every argument, stores a null origin as instant 0, and throws ArrayIndexOutOfBoundsException for a schedule shorter than four |
| `Drugs.Drug.HasDoseOnDate` | src/at/caspase/rxdroid/db/Drug.java:187-204 | errors exactly for: a null calendar (NullPointerException), a code other than daily/every-N-days/weekdays (IllegalStateException), every-N-days without origin or with argument 0, and an unknown weekday; daily is always due |
| `Drugs.Drug.HasDoseOnWeekday` | src/at/caspase/rxdroid/db/Drug.java:491-504 | IllegalStateException unless the frequency is weekdays, IllegalArgumentException for a weekday outside `WEEK_DAYS`, an answer otherwise |
| `Drugs.Drug.SupplyCorrectionFactor` | src/at/caspase/rxdroid/db/Drug.java:258-271 | any frequency other than every-N-days and weekdays gives 1 |
| `Drugs.Drug.GetSchedule` | src/at/caspase/rxdroid/db/Drug.java:273-275 | the four slots, in the order morning, noon, evening, night |
| `Drugs.Drug.GetDose` | src/at/caspase/rxdroid/db/Drug.java:277-287 | slot `t` of the schedule for `0 <= t < 4`, ArrayIndexOutOfBoundsException otherwise |
| `Drugs.Drug.SetName` | src/at/caspase/rxdroid/db/Drug.java:293-295 | only the name changes |
| `Drugs.Drug.SetForm` | src/at/caspase/rxdroid/db/Drug.java:297-302 | codes above `FORM_OTHER` throw and change nothing; otherwise only the form changes |
| `Drugs.Drug.SetFrequency` | src/at/caspase/rxdroid/db/Drug.java:304-322 | codes above `FREQ_WEEKDAYS` throw and change nothing; daily zeroes the argument and clears the origin, weekdays clears only the origin, every-N-days keeps both |
| `Drugs.Drug.SetFrequencyArg` | src/at/caspase/rxdroid/db/Drug.java:331-353 | accepted exactly when: argument above 1 under every-N-days, 1 to 0x7f under weekdays, 6, 8 or 12 under every-N-hours. Any other frequency throws IllegalStateException. A rejection changes nothing; success changes only the argument |
| `Drugs.Drug.SetFrequencyOrigin` | src/at/caspase/rxdroid/db/Drug.java:361-370 | IllegalStateException unless every-N-days or every-N-hours; under every-N-days a non-midnight origin throws IllegalArgumentException; success changes only the origin |
| `Drugs.Drug.SetActive` | src/at/caspase/rxdroid/db/Drug.java:372-374 | only the active flag changes |
| `Drugs.Drug.SetRefillSize` | src/at/caspase/rxdroid/db/Drug.java:376-381 | negative sizes throw and change nothing; the supply bookkeeping is preserved |
| `Drugs.Drug.SetCurrentSupply` | src/at/caspase/rxdroid/db/Drug.java:383-391 | as written: a negative supply throws and changes nothing; any other argument, null included, is stored as given |
| `Drugs.Drug.SetCurrentSupplyOrZero` | src/at/caspase/rxdroid/db/Drug.java:383-391 | as intended: null stores a zero fraction, so the supply bookkeeping is preserved |
| `Drugs.Drug.SetDose` | src/at/caspase/rxdroid/db/Drug.java:393-412 | for `0 <= t < 4`, `GetDose(t)` becomes the value and every other slot and field is unchanged; other slots throw IllegalArgumentException and change nothing |
| `Drugs.Drug.SetComment` | src/at/caspase/rxdroid/db/Drug.java:414-416 | only the comment changes |
| `Drugs.Drug.FieldValues` | src/at/caspase/rxdroid/db/Drug.java:462-489 | the thirteen field values compared by `equals`, the id left out |
| `Drugs.Drug.Equals` | src/at/caspase/rxdroid/db/Drug.java:418-443 | the loop returns true exactly when the other drug is not null and its field values are equal under `Object.equals` |
| `Drugs.Drug.EqualsByValue` | src/at/caspase/rxdroid/db/Drug.java:418-443 | as intended: true exactly when every field value is equal, Fraction fields compared by value |
| `DrugProperties.EveryNDaysDueIff` | src/at/caspase/rxdroid/db/Drug.java:195-198 | under every-N-days, an instant `k` whole days (plus less than a day) before or after the origin is due exactly when N divides `k` |
| `DrugProperties.OriginIsDue` | src/at/caspase/rxdroid/db/Drug.java:195-198 | the origin instant itself is always due |
| `DrugProperties.EveryNDaysPeriodic` | src/at/caspase/rxdroid/db/Drug.java:195-198 | from the origin on, the answer repeats every N days |
| `DrugProperties.EveryOtherDayExample` | src/at/caspase/rxdroid/db/Drug.java:143-145 | origin 2011-09-07 with N = 2: the 7th and 9th are due, the 8th is not |
| `DrugProperties.WeekDaysPosition` | src/at/caspase/rxdroid/db/Drug.java:496-501 | each Calendar weekday maps to its position, Monday = 0 to Sunday = 6 |
| `DrugProperties.WeekdayDueIffBit` | src/at/caspase/rxdroid/db/Drug.java:491-503 | under weekdays, weekday `i` is due exactly when bit `i` of the mask is set |
| `DrugProperties.DayFlagsAreBits` | src/at/caspase/rxdroid/db/Drug.java:96-102 | the day flags are the bits 0 to 6, and each flag selects exactly its own weekday |
| `DrugProperties.MondayWednesdayExample` | src/at/caspase/rxdroid/db/Drug.java:200-201 | the mask Monday and Wednesday makes Monday and Wednesday due and Tuesday not |
| `DrugProperties.EveryNDaysFactor` | src/at/caspase/rxdroid/db/Drug.java:262-263 | under every-N-days the factor is N |
| `DrugProperties.DueWeekdaysCountsBits` | src/at/caspase/rxdroid/db/Drug.java:491-503 | the number of due weekdays is the number of set bits 0 to 6 of the mask |
| `DrugProperties.BitCountOfMask` | src/at/caspase/rxdroid/db/Drug.java:265-266 | `Long.bitCount` of a mask in 1 to 127 counts bits 0 to 6, at least one |
| `DrugProperties.WeekdayFactorIsAverageGap` | src/at/caspase/rxdroid/db/Drug.java:265-266 | under weekdays with a valid mask, the factor is 7 over the number of due weekdays, which is 1 to 7 |
| `DrugProperties.TwoWeekdaysFactor` | src/at/caspase/rxdroid/db/Drug.java:265-266 | Monday and Wednesday give two due days and a factor of 7/2 |
| `DrugProperties.FieldValuesIgnoreId` | src/at/caspase/rxdroid/db/Drug.java:462-469 | drugs that differ only in their id have the same field values |
| `DrugProperties.DifferentDosesAreUnequal` | src/at/caspase/rxdroid/db/Drug.java:418-443 | drugs whose doses at one time differ in value are unequal, by identity and by value |
| `DrugProperties.EveryOtherDayScenario` | src/at/caspase/rxdroid/db/Drug.java:304-370 | after `setFrequency`, `setFrequencyArg(2)` and `setFrequencyOrigin(2011-09-07)`, the 7th and 9th are due and the 8th is not |
| `DrugProperties.MondayWednesdayScenario` | src/at/caspase/rxdroid/db/Drug.java:331-353 | after selecting weekdays and the mask Monday and Wednesday, Monday and Wednesday are due and Tuesday is not |
| `DrugProperties.SupplyFactorScenario` | src/at/caspase/rxdroid/db/Drug.java:258-271 | through the setters: every third day gives 3, Monday and Wednesday give 7/2, daily gives 1 |
| `DrugProperties.WeekdayMaskBounds` | src/at/caspase/rxdroid/db/Drug.java:338-343 | under weekdays, masks 0 and 128 throw IllegalArgumentException and 127 is accepted |
| `DrugProperties.IdOnlyDifferenceScenario` | src/at/caspase/rxdroid/db/Drug.java:462-469 | two drugs built from the same field objects that differ only in id are equal |
| `DrugProperties.NewDrugsCompareUnequal` | src/at/caspase/rxdroid/db/Drug.java:418-443 | as written: two new drugs with equal field values compare unequal |
| `DrugProperties.NewDrugsCompareEqualByValue` | src/at/caspase/rxdroid/db/Drug.java:418-443 | as intended: the same two drugs compare equal by value |
| `DrugProperties.NullSupplyIsStoredAsNull` | src/at/caspase/rxdroid/db/Drug.java:383-391 | as written: `setCurrentSupply(null)` leaves the supply null and breaks the supply bookkeeping |
| `DrugProperties.NullSupplyIsStoredAsZero` | src/at/caspase/rxdroid/db/Drug.java:383-391 | as intended: a null supply is stored as zero and the bookkeeping holds |
| `DrugProperties.ZeroArgumentDividesByZero` | src/at/caspase/rxdroid/db/Drug.java:195-198 | as written: after `setFrequency(FREQ_EVERY_N_DAYS)` and a midnight origin on a new drug, whose argument is still 0, `hasDoseOnDate` throws ArithmeticException |

## Left out

- Java integer overflow is not modelled; the model's integers are unbounded. This covers:
  - 32-bit `int` arithmetic in `construct` (`wholeNum * denominator`), `findLCM` (`n1 * n2`) and `plus`;
  - numbers too large for `Integer.parseInt`;
  - the 64-bit range of `frequencyArg`;
  - `Math.abs(Long.MIN_VALUE)`.
- Floating point is left out: `doubleValue`, `floatValue`, `intValue`, `longValue`, `equals(Number)` and `compareTo`. The one use in Drug, the sign test `compareTo(0) == -1` in `setCurrentSupply`, is modelled exactly as "numerator below zero".
- `Drugs.Drug.SupplyCorrectionFactor`: returns the exact rational value of the double (N, 7/bit count, or 1), or `Infinity` for a zero bit count. Double rounding is not modelled.
- Logging (`Log.d`), `Serializable` and the database annotations are left out; they do not affect results.
- `Drug.hashCode` is left out because its Hasher is not part of this model.
- `Drug.toString` and `getFormResourceId` are left out: they are display strings and Android resources.
- The plain getters (`getName`, `getForm`, `getFrequency` and so on) are the class fields themselves.
- `sDisplayMixedNumbers` and `setDisplayMixedNumbers` are a static flag. The model passes the flag to `ToText` as the parameter `mixed`.
- The identity of the static `Fraction.ZERO` object is not modelled. `SetCurrentSupply` allocates a new zero object and then overwrites it, as Java overwrites the assignment. `SetCurrentSupplyOrZero` allocates a fresh zero object instead of sharing one static object.
- The origin is a mutable `Date` in Java. `setFrequencyOrigin` stores the caller's object (src/at/caspase/rxdroid/db/Drug.java:369), and `getFrequencyOrigin` returns the internal reference (src/at/caspase/rxdroid/db/Drug.java:242-244). A caller can therefore move the origin off midnight after the check at src/at/caspase/rxdroid/db/Drug.java:365-367. The model stores the origin as a number of milliseconds, so this aliasing is not modelled.
- A calendar is only the pair (milliseconds, `DAY_OF_WEEK`); the model does not check that the two agree. Time zones and daylight saving are left out.
- `Constants`, `DateTime` and `CollectionUtils` are not part of this model. Their behaviour is assumed:
  - `MILLIS_PER_DAY` is 86400000;
  - `WEEK_DAYS` is Calendar's Monday to Sunday, `[2, 3, 4, 5, 6, 7, 1]`;
  - `indexOf` returns the first position or -1;
  - `DateTime.getOffsetFromMidnight` is the parameter `offsetFromMidnight` of `SetFrequencyOrigin`, and a null origin passed to it throws NullPointerException.
- Null references where the model has values are left out: a null string passed to `decode`, a null schedule array passed to the trusted constructor, and a null `Integer` passed to `plus(Integer)` or `minus(Integer)`. In the model, strings and sequences are never null.
- In `Drugs.Drug.WithFields`, Java assigns the first five fields before the schedule index throws. That object is unreachable afterwards, so the model checks the schedule's length first.
- `decode`'s `groupCount() != 3` test and its `assert` at line 191 cannot fail: the pattern has three groups.
- `decode` uses `Matcher.find` with `^` and `$`. The model implements the anchored match directly, including `$` matching just before a final `\u0085`, `\u2028` or `\u2029`.
- `Integer.parseInt` in the model accepts an optional `-` and ASCII digits. A leading `+` and non-ASCII digits, which some Java versions accept, are rejected.
- `Fractions.FindLcm` requires two positive numbers. `findLCM` is private and is called only with two denominators, which are always positive.

## Findings

| source | as written | input that shows it | evidently intended | confidence | as-written member | corrected member |
|---|---|---|---|---|---|---|
| src/at/caspase/rxdroid/db/Drug.java:383-391 | `setCurrentSupply(null)` assigns `Fraction.ZERO`, then the unconditional `this.currentSupply = currentSupply` overwrites it with null | `setCurrentSupply(null)` on a new drug | a null supply is stored as zero and the supply is never null | not executed | `DrugProperties.NullSupplyIsStoredAsNull` | `Drugs.Drug.SetCurrentSupplyOrZero` |
| src/at/caspase/rxdroid/db/Drug.java:418-443 | `thisMembers[i].equals(otherMembers[i])` calls `Object.equals` on Fraction fields, because Fraction declares only `equals(Number)` (trunk/src/at/caspase/rxdroid/Fraction.java:113); Fractions are therefore compared by identity | two `new Drug()` objects, whose zero doses are separate objects | drugs whose fields have equal values, apart from the id, are equal | not executed | `DrugProperties.NewDrugsCompareUnequal` | `Drugs.Drug.EqualsByValue` |
