# Cashly home-screen widget: a Dafny model

Cashly's Android home-screen widget (`HomeWidgetProvider`) shows the current
balance that the Flutter application last wrote to a shared key/value store,
formatted as Indonesian rupiah, and opens the application when tapped. This
project models that provider and proves what it does.

The heart of it is `formatCurrency`, which renders an `Int` as `"Rp"`
followed by its decimal string with a `.` inserted every three characters
counted from the right, through one chain of Kotlin calls: `toString`,
`reversed`, `chunked(3)`, `joinToString(".")`, `reversed`.

- `text.dfy` (module `Text`): the Kotlin string operations of that chain
  (`Reverse`, `Chunked`, `JoinToString`) as functions on strings, and the
  reference operations used to state results (`RemoveAll`, `Count`, `Split`,
  `Concat`) with their algebra (append, involution, split-after-join).
- `decimal.dfy` (module `Decimal`): Kotlin's 32-bit `Int` (`Int32`,
  -2^31..2^31-1) and `Int.toString()` as a sign and the digits of the
  magnitude, with a reference reader (`Value`, `SignedValue`). The
  digits and the reader are proved to be inverses in both directions.
- `currency.dfy` (module `Currency`): `FormatCurrency`, the chain exactly as
  written, and `Group`, right-to-left grouping by threes stated recursively.
  It proves that the two agree on every string. It also proves what the
  grouped text looks like and what happens to a minus sign.
- `widget.dfy` (module `HomeWidget`): the callbacks `onUpdate`,
  `updateAppWidget`, `setupWidgetClickListener` and `onReceive`. The Android
  objects are replaced by plain state. A `Device` object stands for the
  context, the widget manager and the package manager. Its fields are the
  snapshot store (a map from key to `Int`), whether a launch intent resolves,
  and a log of the requests made to the platform (push views to widget `id`,
  start the activity). `RemoteViews` is an object holding the text and the
  click intent set on each view.

Negative amounts are modelled as written. The chain treats the `-` of
`amount.toString()` as one more character. When the number of digits is a
multiple of three, the sign becomes a group of its own and the text holds
`"-."`, for example -123 gives `"Rp-.123"` (`FormatNegative`,
`ExampleNegativeSignAlone`). In every other case the sign sits in front of a
correct grouping, for example -1234 gives `"Rp-1.234"`. Nothing is lost
either way: deleting the separators gives back `amount.toString()`
(`FormatCurrencyRoundTrip`).

`OnUpdate` states the whole effect of a refresh. It appends one update per
id, each carrying `RenderedViews` of the store, and it leaves the store
unchanged. So two refreshes in a row append identical views.

`formatCurrency` groups the whole signed `amount.toString()`, minus sign
included (line 109), and the model does the same. The code defines a single
action, `ACTION_CLICK`. The commented-out per-button listener at line 51 would
have used the same tag. The model has just that one action.

## Model

| member | source | states |
|---|---|---|
| `Currency.FormatCurrency` | android/app/src/main/kotlin/com/example/cash_inout_app/HomeWidgetProvider.kt:108-110 | the result starts with "Rp"; what follows it is stated by `FormatCurrencyIsGrouping` and the lemmas below |
| `Currency.FormatCurrencyIsGrouping` | android/app/src/main/kotlin/com/example/cash_inout_app/HomeWidgetProvider.kt:108-110 | after the "Rp" prefix comes exactly `Group` of `amount.toString()` |
| `Currency.PipelineIsGroup` | android/app/src/main/kotlin/com/example/cash_inout_app/HomeWidgetProvider.kt:109 | for every string, reverse / chunked(3) / join with "." / reverse equals right-to-left grouping by threes |
| `Currency.Group` | android/app/src/main/kotlin/com/example/cash_inout_app/HomeWidgetProvider.kt:109 | the grouped string of a string of length n has length n + (n - 1) / 3 and keeps the first and last character |
| `Currency.GroupRemoveSeparators` | android/app/src/main/kotlin/com/example/cash_inout_app/HomeWidgetProvider.kt:109 | deleting every "." from the grouping of a separator-free string gives the string back: nothing lost, added or reordered |
| `Currency.GroupCountSeparators` | android/app/src/main/kotlin/com/example/cash_inout_app/HomeWidgetProvider.kt:109 | a non-empty separator-free string of length n receives exactly (n - 1) / 3 separators |
| `Currency.LeftGroupsShape` | android/app/src/main/kotlin/com/example/cash_inout_app/HomeWidgetProvider.kt:109 | the grouping joins (n - 1) / 3 + 1 groups with "."; the leftmost has 1 to 3 characters, all others exactly 3, and together they spell the input |
| `Currency.GroupShape` | android/app/src/main/kotlin/com/example/cash_inout_app/HomeWidgetProvider.kt:109 | splitting the grouped text at "." gives groups of that shape; the text neither starts nor ends with "." |
| `Currency.GroupSignAlone` | android/app/src/main/kotlin/com/example/cash_inout_app/HomeWidgetProvider.kt:109 | a sign before a digit string whose length is a multiple of 3 becomes its own group, followed by "." |
| `Currency.GroupSignJoins` | android/app/src/main/kotlin/com/example/cash_inout_app/HomeWidgetProvider.kt:109 | a sign before a digit string of any other length is prepended to the correct grouping |
| `Currency.FormatNonNegative` | android/app/src/main/kotlin/com/example/cash_inout_app/HomeWidgetProvider.kt:109 | for amount >= 0: deleting the "." after "Rp" gives exactly the digits of amount, which read back as amount; (len - 1) / 3 separators; no leading or trailing "."; leftmost group 1 to 3 digits, the others exactly 3 |
| `Currency.FormatNegative` | android/app/src/main/kotlin/com/example/cash_inout_app/HomeWidgetProvider.kt:109 | for amount < 0 the output is "Rp-." + grouped digits when the digit count is a multiple of 3, else "Rp-" + grouped digits |
| `Currency.FormatCurrencyRoundTrip` | android/app/src/main/kotlin/com/example/cash_inout_app/HomeWidgetProvider.kt:109 | for every amount, deleting the "." after "Rp" gives `amount.toString()`, which reads back as amount |
| `Currency.ExampleZero` | android/app/src/main/kotlin/com/example/cash_inout_app/HomeWidgetProvider.kt:109 | 0 is formatted as "Rp0" |
| `Currency.ExampleFiftyThousand` | android/app/src/main/kotlin/com/example/cash_inout_app/HomeWidgetProvider.kt:109 | 50000 is formatted as "Rp50.000" |
| `Currency.ExampleMillions` | android/app/src/main/kotlin/com/example/cash_inout_app/HomeWidgetProvider.kt:109 | 1234567 is formatted as "Rp1.234.567" |
| `Currency.ExampleNegativeSignAlone` | android/app/src/main/kotlin/com/example/cash_inout_app/HomeWidgetProvider.kt:109 | -123 is formatted as "Rp-.123" |
| `Currency.ExampleNegativeSignJoins` | android/app/src/main/kotlin/com/example/cash_inout_app/HomeWidgetProvider.kt:109 | -1234 is formatted as "Rp-1.234" |
| `Text.Reverse` | android/app/src/main/kotlin/com/example/cash_inout_app/HomeWidgetProvider.kt:109 | `reversed()` keeps the length; its index-wise meaning, involution and behaviour on concatenation are `ReverseAt`, `ReverseInvolution` and `ReverseAppend` |
| `Text.ReverseAt` | android/app/src/main/kotlin/com/example/cash_inout_app/HomeWidgetProvider.kt:109 | position k of the reversal holds the k-th character from the end |
| `Text.ReverseInvolution` | android/app/src/main/kotlin/com/example/cash_inout_app/HomeWidgetProvider.kt:109 | reversing twice gives the string back |
| `Text.ReverseAppend` | android/app/src/main/kotlin/com/example/cash_inout_app/HomeWidgetProvider.kt:109 | the reversal of a + b is the reversal of b followed by that of a |
| `Text.Chunked` | android/app/src/main/kotlin/com/example/cash_inout_app/HomeWidgetProvider.kt:109 | `chunked(size)` gives non-empty pieces of at most size characters, all but the last exactly size, concatenating to the input |
| `Text.JoinToString` | android/app/src/main/kotlin/com/example/cash_inout_app/HomeWidgetProvider.kt:109 | `joinToString(sep)` of no pieces is empty, and of one or more pieces starts with the first; its length and inverse are `JoinLength` and `SplitJoin` |
| `Text.JoinLength` | android/app/src/main/kotlin/com/example/cash_inout_app/HomeWidgetProvider.kt:109 | joining n pieces adds n - 1 copies of the separator to their total length |
| `Text.JoinSnoc` | android/app/src/main/kotlin/com/example/cash_inout_app/HomeWidgetProvider.kt:109 | joining pieces with one more at the end appends the separator and that piece |
| `Text.SplitJoin` | android/app/src/main/kotlin/com/example/cash_inout_app/HomeWidgetProvider.kt:109 | splitting at a separator that no piece holds gives the pieces back |
| `Decimal.Digits` | android/app/src/main/kotlin/com/example/cash_inout_app/HomeWidgetProvider.kt:109 | the digits of a natural number form a non-empty digit string, one character long exactly when the number is below 10 |
| `Decimal.ToString` | android/app/src/main/kotlin/com/example/cash_inout_app/HomeWidgetProvider.kt:109 | `Int.toString()` is non-empty, starts with "-" exactly for negative values, holds no ".", and is a signed decimal that reads back as the value |
| `Decimal.SignedDigits` | android/app/src/main/kotlin/com/example/cash_inout_app/HomeWidgetProvider.kt:109 | the digits of m, alone or after "-", hold no "." and read back as m or -m |
| `Decimal.ValueOfDigits` | android/app/src/main/kotlin/com/example/cash_inout_app/HomeWidgetProvider.kt:109 | reading back the digits of n gives n |
| `Decimal.DigitsOfValue` | android/app/src/main/kotlin/com/example/cash_inout_app/HomeWidgetProvider.kt:109 | every digit string without a leading zero is the rendering of its own value |
| `Decimal.DigitsNoLeadingZero` | android/app/src/main/kotlin/com/example/cash_inout_app/HomeWidgetProvider.kt:109 | the rendering starts with "0" exactly when the number is 0 |
| `HomeWidget.RenderedViews` | android/app/src/main/kotlin/com/example/cash_inout_app/HomeWidgetProvider.kt:37-54 | the pushed views set a text only on the balance view, a click only on the root view (the widget click intent), and the balance text starts with "Rp"; `RenderedBalanceReadsBack` gives the rest |
| `HomeWidget.MissingBalanceRendersZero` | android/app/src/main/kotlin/com/example/cash_inout_app/HomeWidgetProvider.kt:40-48 | with the balance key absent the balance text is "Rp0" |
| `HomeWidget.BalanceFiftyThousandRenders` | android/app/src/main/kotlin/com/example/cash_inout_app/HomeWidgetProvider.kt:40-48 | with balance 50000 the only text written is "Rp50.000" in the balance view |
| `HomeWidget.RenderDependsOnlyOnBalance` | android/app/src/main/kotlin/com/example/cash_inout_app/HomeWidgetProvider.kt:38-54 | income and expense are formatted but never shown: the rendered views depend only on the balance, set only the balance text and only the root click |
| `HomeWidget.RenderedBalanceReadsBack` | android/app/src/main/kotlin/com/example/cash_inout_app/HomeWidgetProvider.kt:40-48 | the balance text starts with "Rp" and, with the "." deleted, reads back as the stored balance |
| `HomeWidget.OnUpdate` | android/app/src/main/kotlin/com/example/cash_inout_app/HomeWidgetProvider.kt:19-27 | exactly one update per id, in array order, each pushing the rendering of the unchanged snapshot; the store is not written |
| `HomeWidget.UpdateAppWidget` | android/app/src/main/kotlin/com/example/cash_inout_app/HomeWidgetProvider.kt:29-58 | one update for the given id carrying the rendered views; the store is not written |
| `HomeWidget.RemoteViews.SetTextViewText` | android/app/src/main/kotlin/com/example/cash_inout_app/HomeWidgetProvider.kt:48 | the text of the given view becomes the given text; other texts and all clicks are unchanged |
| `HomeWidget.RemoteViews.SetOnClickPendingIntent` | android/app/src/main/kotlin/com/example/cash_inout_app/HomeWidgetProvider.kt:90 | the click intent of the given view becomes the given intent; other clicks and all texts are unchanged |
| `HomeWidget.SetupWidgetClickListener` | android/app/src/main/kotlin/com/example/cash_inout_app/HomeWidgetProvider.kt:76-91 | the root view gets the broadcast click intent (request code 0, `ACTION_CLICK`, "custom://widget_click"); texts are unchanged |
| `HomeWidget.OnReceive` | android/app/src/main/kotlin/com/example/cash_inout_app/HomeWidgetProvider.kt:93-106 | on `ACTION_CLICK` with a resolvable launch intent the app is started exactly once with only the new-task flag; any other action has no custom effect; `super.onReceive` is not modelled (see Left out) |

## Left out

- `RemoteViews` construction from the package name and layout id, `AppWidgetManager`, `Intent`, `PendingIntent` and `Uri` are Android framework objects. They are replaced by the `RemoteViews` and `Device` objects, the `ClickIntent` record (the URI kept as its text) and the event log.
- `HomeWidgetPlugin.getData` is a call into a foreign library. It is replaced by the `store` map. A value stored under a key with a type other than `Int` would make `getInt` throw; the map holds only `Int` values, so that case does not arise.
- `setupButtonClickListener` (lines 60-74) is not modelled: its only call site, line 51, is commented out.
- `super.onReceive` is not modelled: what the platform's own handler does (dispatching update broadcasts to `onUpdate`, among others) is not visible here.
- The `PendingIntent` flags (`FLAG_UPDATE_CURRENT or FLAG_IMMUTABLE`) are platform constants. `ClickIntent` does not record them.
- The launch intent from `getLaunchIntentForPackage` is reduced to whether it resolves. The started activity is recorded by package name and flag set only. Its flags are assigned, not added to, so the set is exactly `{NewTask}`.
- Locale, threading and the widget lifecycle belong to the operating system and are not modelled.
- Renderings of the income and expense values are computed (lines 43-44) and discarded. The model computes them too but, like the source, never uses them.
