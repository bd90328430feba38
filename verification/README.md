# Form progress bar: input filters, commit and gate

A Dafny model of the logic in the single screen of the Form-Progress-Bar
app (`MainActivity.kt`). The screen has two text fields, a "Count"
(`numState`) and a "Percent" (`percentState`), plus a "Generate!" button and a
circular progress bar.

- Each field has an `onValueChange` filter. The count field takes a candidate
  only if it is all digits. The percent field also needs
  `toIntOrNull() ?: 0` to lie in `0..100`. A rejected candidate leaves the
  field as it was.
- Each field keeps a local holder in step with its text. The holder decides
  whether the "Total" / "%" badge is drawn.
- Generate commits `numState.toIntOrNull() ?: 0` and the percent text's value
  divided by 100.
- The progress bar animates towards the committed percentage only once
  `animationPlayed` is set and the count is non-zero. Otherwise it animates
  towards 0.

Modules:

- `KotlinText` (kotlin_text.dfy): the Kotlin library calls used on the text.
  These are `isDigit`, `all`, `toIntOrNull`, exact `toFloatOrNull` on digit
  strings and `?:`. It also defines `IntToString`, a decimal rendering used
  only to state that `toIntOrNull` reads it back.
- `FormField` (form_field.dfy): the two filters, the edit transitions and the
  badge.
- `MainScreen` (main_screen.dfy): the screen state, the commit, and the
  actions replayed from the empty screen. It also defines reference
  definitions of "last accepted text" and "last commit".
- `ProgressBar` (progress_bar.dfy): the animation target and its zero-count
  gate.

Three behaviours of the code that a reader may not expect, all reproduced
by the model:

- The percent filter also accepts any digit string too large for a 32-bit
  `Int`, such as "99999999999". `toIntOrNull` yields `null`, `?: 0` makes that
  0, and 0 is in range. The committed percentage can therefore exceed 1
  (`MainScreen.CommitOverflow`). It is not always in [0, 1].
- A count text too large for an `Int` commits as 0, so it gates the progress
  bar to 0. The count has an upper bound, `Int.MAX_VALUE`.
- The gate also depends on `animationPlayed`, not only on the count.

## Model

| member | source | states |
|---|---|---|
| KotlinText.AllDigits | Form-Progress-Bar/app/src/main/java/com/example/formprogressbar/MainActivity.kt:117 | the front-to-back `all { isDigit() }` check is true exactly when every character is a digit; true of "" |
| KotlinText.ToIntOrNull | Form-Progress-Bar/app/src/main/java/com/example/formprogressbar/MainActivity.kt:149 | `toIntOrNull` gives a value only for non-empty text and only inside the `Int` range; on a digit string it gives the string's value exactly when that value is at most `Int.MAX_VALUE`, and `null` otherwise |
| KotlinText.ToIntOrNullOfIntToString | Form-Progress-Bar/app/src/main/java/com/example/formprogressbar/MainActivity.kt:67 | `toIntOrNull` reads back every `Int` rendered by `toString`, negatives included |
| KotlinText.DecimalValueOfNatToDecimal | Form-Progress-Bar/app/src/main/java/com/example/formprogressbar/MainActivity.kt:67 | the digit-string value inverts the decimal rendering of a natural number |
| KotlinText.LeadingZeroIgnored | Form-Progress-Bar/app/src/main/java/com/example/formprogressbar/MainActivity.kt:149 | a leading '0' keeps a digit string all digits and does not change its value, so "007" parses as 7 |
| KotlinText.ShortDigitStringParses | Form-Progress-Bar/app/src/main/java/com/example/formprogressbar/MainActivity.kt:67 | every non-empty digit string of at most nine digits parses to its value |
| KotlinText.LongDigitStringOverflows | Form-Progress-Bar/app/src/main/java/com/example/formprogressbar/MainActivity.kt:149 | a digit string of eleven or more digits with no leading zero makes `toIntOrNull` yield `null` |
| KotlinText.DigitsToFloatOrNull | Form-Progress-Bar/app/src/main/java/com/example/formprogressbar/MainActivity.kt:68 | on a digit string, `toFloatOrNull` is `null` exactly for "" and otherwise the string's exact value |
| KotlinText.Option.GetOr | Form-Progress-Bar/app/src/main/java/com/example/formprogressbar/MainActivity.kt:67 | `x ?: d` is the value of `x` when `x` is not `null`, and `d` when it is |
| FormField.CountEditAccepted | Form-Progress-Bar/app/src/main/java/com/example/formprogressbar/MainActivity.kt:117 | the count filter accepts a candidate iff every character is in '0'..'9' |
| FormField.PercentEditAccepted | Form-Progress-Bar/app/src/main/java/com/example/formprogressbar/MainActivity.kt:147-149 | the percent filter accepts iff the candidate is all digits and is "", has value at most 100, or has a value above `Int.MAX_VALUE` |
| FormField.Take | Form-Progress-Bar/app/src/main/java/com/example/formprogressbar/MainActivity.kt:118-119 | an accepted candidate is stored in both the holder and the field state, which are then in step |
| FormField.ShowsBadge | Form-Progress-Bar/app/src/main/java/com/example/formprogressbar/MainActivity.kt:125 | the badge is drawn iff the holder is non-empty, which for a field in step means iff its text is non-empty |
| FormField.EditCount | Form-Progress-Bar/app/src/main/java/com/example/formprogressbar/MainActivity.kt:116-121 | an all-digit candidate replaces both the field text and the holder; any other candidate leaves the field unchanged; holder and text stay in step |
| FormField.EditPercent | Form-Progress-Bar/app/src/main/java/com/example/formprogressbar/MainActivity.kt:146-154 | an accepted candidate replaces text and holder, a rejected one changes nothing; the field text stays acceptable to the filter and holder and text stay in step |
| FormField.CountEditAcceptedAppend | Form-Progress-Bar/app/src/main/java/com/example/formprogressbar/MainActivity.kt:117 | typing one more character onto a candidate is accepted iff the candidate was accepted and the character is a digit |
| FormField.PercentAcceptedIsCountAccepted | Form-Progress-Bar/app/src/main/java/com/example/formprogressbar/MainActivity.kt:148 | every candidate the percent filter accepts also passes the count filter |
| FormField.PercentAcceptedInRange | Form-Progress-Bar/app/src/main/java/com/example/formprogressbar/MainActivity.kt:149 | accepted percent text that parses as an `Int` has value at most 100 |
| FormField.PercentLeadingZeroSameVerdict | Form-Progress-Bar/app/src/main/java/com/example/formprogressbar/MainActivity.kt:148-149 | prefixing '0' to any candidate never changes the percent filter's verdict |
| FormField.RejectedEditKeepsBadge | Form-Progress-Bar/app/src/main/java/com/example/formprogressbar/MainActivity.kt:116-128 | a rejected count edit changes neither the field text nor whether the "Total" badge is shown |
| FormField.BadgeIffNonEmpty | Form-Progress-Bar/app/src/main/java/com/example/formprogressbar/MainActivity.kt:124-128 | with holder and text in step, the badge is shown iff the field text is non-empty |
| FormField.CountFilterExamples | Form-Progress-Bar/app/src/main/java/com/example/formprogressbar/MainActivity.kt:117 | "" and "007" are accepted; "12a", "-3" and " 1" are rejected |
| FormField.PercentFilterExamples | Form-Progress-Bar/app/src/main/java/com/example/formprogressbar/MainActivity.kt:146-154 | "", "100" and "0100" are accepted; "101", "-5" and "5%" are rejected |
| FormField.PercentFilterAcceptsOverflow | Form-Progress-Bar/app/src/main/java/com/example/formprogressbar/MainActivity.kt:148-149 | "99999999999" is accepted, because its `null` parse falls back to 0 |
| MainScreen.Commit | Form-Progress-Bar/app/src/main/java/com/example/formprogressbar/MainActivity.kt:66-69 | the committed count is the count text's value when it fits in an `Int` and 0 otherwise ("" or overflow), so it is never negative for digit text; the committed percentage times 100 is the percent text's value, 0 for "", never negative, and at most 1 when the accepted text parses as an `Int` |
| MainScreen.Step | Form-Progress-Bar/app/src/main/java/com/example/formprogressbar/MainActivity.kt:53-69 | every action keeps the reachable-state invariant; an accepted edit stores the candidate in its own field and nothing else, a rejected edit changes nothing, and Generate stores the commit of the current texts and changes nothing else |
| MainScreen.Run | Form-Progress-Bar/app/src/main/java/com/example/formprogressbar/MainActivity.kt:47-69 | any sequence of actions from a valid screen ends in a valid screen: digit-only texts, percent text acceptable to its filter, holders in step, committed count in 0..`Int.MAX_VALUE` |
| MainScreen.LastAcceptedCount | Form-Progress-Bar/app/src/main/java/com/example/formprogressbar/MainActivity.kt:116-121 | the last count candidate the filter accepted (or "") always passes the count filter |
| MainScreen.LastAcceptedPercent | Form-Progress-Bar/app/src/main/java/com/example/formprogressbar/MainActivity.kt:146-154 | the last percent candidate the filter accepted (or "") always passes the percent filter |
| MainScreen.InitialIsValid | Form-Progress-Bar/app/src/main/java/com/example/formprogressbar/MainActivity.kt:47-50 | the empty start screen satisfies the reachable-state invariant |
| MainScreen.RunFollowsLastAccepted | Form-Progress-Bar/app/src/main/java/com/example/formprogressbar/MainActivity.kt:116-154 | from the empty screen, each field's text and holder equal the last candidate its filter accepted, and the committed values are the commit of those texts at the last Generate click |
| MainScreen.BadgesFollowLastAccepted | Form-Progress-Bar/app/src/main/java/com/example/formprogressbar/MainActivity.kt:124-161 | the "Total" and "%" badges are shown iff the last accepted text of their field is non-empty |
| MainScreen.ReachableScreensDigitsOnly | Form-Progress-Bar/app/src/main/java/com/example/formprogressbar/MainActivity.kt:47-61 | after any actions, both field texts hold only digits and the committed count is a non-negative `Int` |
| MainScreen.GenerateIdempotent | Form-Progress-Bar/app/src/main/java/com/example/formprogressbar/MainActivity.kt:66-69 | clicking Generate twice in a row gives the same screen as clicking it once |
| MainScreen.CommitExamples | Form-Progress-Bar/app/src/main/java/com/example/formprogressbar/MainActivity.kt:66-69 | "" and "" commit (0, 0); "50" and "40" commit (50, 0.4); "0" and "75" commit (0, 0.75) |
| MainScreen.CommitOverflow | Form-Progress-Bar/app/src/main/java/com/example/formprogressbar/MainActivity.kt:67-68 | percent text "99999999999" commits a percentage above 1; count text "99999999999" commits 0 |
| ProgressBar.Target | Form-Progress-Bar/app/src/main/java/com/example/formprogressbar/MainActivity.kt:225 | the target is the percentage when the animation has started and the count is non-zero, and 0 when either fails |
| ProgressBar.ScreenTarget | Form-Progress-Bar/app/src/main/java/com/example/formprogressbar/MainActivity.kt:73-78 | on a reachable screen the target lies between 0 and the committed percentage |
| ProgressBar.ZeroCountGatesTarget | Form-Progress-Bar/app/src/main/java/com/example/formprogressbar/MainActivity.kt:225 | after Generate with a count text of value 0, or too large for an `Int`, the target is 0 whatever the percent and the animation flag |
| ProgressBar.NonZeroCountPassesPercent | Form-Progress-Bar/app/src/main/java/com/example/formprogressbar/MainActivity.kt:225 | after Generate with a non-zero parsable count and a started animation, the target times 100 is the percent text's value, and at most 1 when that text parses as an `Int` |
| ProgressBar.GateExample | Form-Progress-Bar/app/src/main/java/com/example/formprogressbar/MainActivity.kt:225 | count "0" with percent "75" targets 0; count "50" with percent "40" targets 0.4 once started |
| ProgressBar.TargetZeroBeforeGenerate | Form-Progress-Bar/app/src/main/java/com/example/formprogressbar/MainActivity.kt:49-50 | after any edits and no Generate click, the target is 0, started or not |
| MainScreen.LastCommittedWithoutGenerate | Form-Progress-Bar/app/src/main/java/com/example/formprogressbar/MainActivity.kt:49-50 | with no Generate click among the actions, the last committed values are the initial (0, 0) |

## Left out

- `isDigit` and the digit test of `toIntOrNull` are ASCII '0'..'9' here. Kotlin also accepts the other Unicode decimal digits (for example Arabic-Indic digits). With those, the filters would accept more candidates. Such a percent text would pass both filters, but `toFloatOrNull` reads only ASCII digits and gives `null` for it, so it would commit 0. `MainScreen.Commit`'s "percentage times 100 is the text's value" rests on the ASCII reading.
- KotlinText.DigitsToFloatOrNull: covers only digit strings and computes the exact value. It does not model `Float` rounding, so "99999999999" reads as exactly 99999999999, not as the nearest `Float`. Other float syntaxes are not modelled because `percentState` only ever holds digits.
- MainScreen.Commit: a percent text of about 3.4 × 10^38 or more in value (for digit strings without leading zeros: some of 39 digits and all longer ones) becomes `Infinity` as a `Float` in the program; the model commits its exact finite value over 100 instead.
- MainScreen.Commit: the percentage is an exact fraction (value / 100), not a 32-bit `Float` division. Its requires that the percent text is all digits holds on every reachable screen.
- Animation timing is not modelled: `animateFloatAsState`, `tween` with its 1400 ms duration and 400 ms delay, and the `LaunchedEffect` that sets `animationPlayed`. These belong to the Compose library, so `animationPlayed` is a boolean input to the gate.
- The arc sweep `360 * value` and the label `(value * number).toInt()` are left out. They are `Float` arithmetic with truncation.
- Hiding the soft keyboard on Generate is left out. It is a platform side effect.
- Layout, theming, `Modifier` chains, `Indicator` styling and `edgeShape` are left out. They are pure presentation.
