# finanzas-app: transaction ledger and capture form

A Dafny model of the part of the finanzas-app mobile application that keeps
the list of income and expense movements and captures new ones:

- the **transactions store** (`TransactionsProvider`): a list of records,
  newest first, with `addTransaction`, which builds a record from the form's
  text and prepends it, and `deleteTransaction`, which filters out every
  record with a given id (`transactions.dfy`, module `Transactions`; the
  provider's state is the class `TransactionsStore`);
- the **"Nuevo movimiento" form** (`TransactionModal`): its seven state
  fields, the reset when it is shown, the `[0-9.]` input sanitiser, the signed
  preview of the amount, the date picker, and the guard chain of the save
  button with its four error messages (`transaction_form.dfy`, module
  `TransactionForm`; the form's state is the class `TransactionModal`, and
  `SubmitForm` is the transactions screen's `onSave` that forwards an
  accepted entry to the store);
- the two JavaScript conversions the form and the store rely on, stated on
  the only text the amount field can hold (digits and points): `Number()`
  and `parseFloat` (`amount_text.dfy`, module `AmountText`), and
  Number::toString of ECMA-262 section 6.1.6.1.20, used by the preview
  (`number_format.dfy`, module `NumberFormat`).

Numbers are exact decimals, `Finite(units, scale)` meaning
units / 10^scale, or `NaN`. `Normalize` gives each value one representation,
so "reads back as the same value" is stated as equal normal forms, and
`NormalizeDecidesValue` proves that this is equality of the rational values.

The clock (`Date.now()` for ids, `new Date()` for the default date) and the
date picker's choice are parameters of the operations that use them.

Behaviour of the code worth knowing:

- `deleteTransaction` removes every record whose id matches, not one record;
  ids come from a millisecond clock, so two records added within the same
  millisecond share an id and are deleted together. Exactly one record goes
  only when ids are unique (`UniqueDeleteRemovesOne`), which additions keep
  only for fresh ids (`AddKeepsIdsUnique`).
- The form has no "kind not chosen" error: the kind starts as `gasto` and is
  always set. It has an extra combined error for a blank title together with
  an empty amount, checked first.
- An amount of `0` (or `0.`, `.0`, `000`) passes the checks: `Number()` only
  rejects NaN, so a zero movement is stored; nothing requires a positive
  amount.
- A point typed after whole digits is dropped by the preview at once (the
  field shows the preview, and the preview of `12.` is `-12`,
  `TrailingPointNotShown`), so a fractional amount can only be entered by
  pasting it or by inserting the point between digits already typed. That
  the field then shows the shorter preview depends on how React Native
  re-syncs a controlled text input, which the model does not cover; it
  proves only that the two previews are equal.

## Model

| member | source | states |
|---|---|---|
| `AmountText.Sanitize` | components/ui/TransactionModal.tsx:103 | the result contains only digits and points and is never longer than the input |
| `AmountText.SanitizeAppend` | components/ui/TransactionModal.tsx:103 | the sanitiser works character by character: sanitising a concatenation is concatenating the sanitised parts, so kept characters keep their order |
| `AmountText.SanitizeChar` | components/ui/TransactionModal.tsx:103 | a single character is kept exactly when it is a digit or a point |
| `AmountText.SanitizeKeepsAmountText` | components/ui/TransactionModal.tsx:103 | text made only of digits and points is left unchanged |
| `AmountText.SanitizeIdempotent` | components/ui/TransactionModal.tsx:103 | sanitising twice is sanitising once |
| `AmountText.NumberOfNaN` | components/ui/TransactionModal.tsx:64 | `Number()` of amount text is NaN exactly when the text is non-empty and lacks a digit or has more than one point |
| `AmountText.NumberValidity` | components/ui/TransactionModal.tsx:64 | amount text is a decimal literal exactly when it has a digit and at most one point |
| `AmountText.NumberOfDigits` | components/ui/TransactionModal.tsx:47 | `Number()` of a digit string is its decimal value |
| `AmountText.NumberOfDotted` | components/ui/TransactionModal.tsx:47 | `Number()` of digits a, a point and digits b is the value of ab divided by 10 to the length of b |
| `AmountText.ParseFloat` | context/TransactionsContext.tsx:39 | parseFloat is NaN exactly when the text starts neither with a digit nor with a point followed by a digit, and is never negative otherwise |
| `AmountText.ParseFloatAgreesWithNumber` | context/TransactionsContext.tsx:39 | on non-empty amount text that `Number()` accepts, parseFloat in the store reads the same value |
| `NumberFormat.NormalizeValue` | components/ui/TransactionModal.tsx:47-48 | normalising only strips common factors of ten: units of the normal form times 10 to the dropped scale give the original units |
| `NumberFormat.NormalizeShift` | components/ui/TransactionModal.tsx:47-48 | scaling units and scale by the same power of ten leaves the normal form unchanged |
| `NumberFormat.NormalizeDecidesValue` | components/ui/TransactionModal.tsx:47-48 | two decimals have the same normal form exactly when they are equal as rationals |
| `NumberFormat.StripZerosValue` | components/ui/TransactionModal.tsx:48 | stripping trailing zeros factors a positive integer as digits times a power of ten |
| `NumberFormat.NumberToStringRoundTrip` | components/ui/TransactionModal.tsx:47-48 | the text Number::toString gives for a non-negative value without exponent notation is amount text and reads back through `Number()` as the same value |
| `NumberFormat.PositiveRoundTrip` | components/ui/TransactionModal.tsx:48 | the same for a positive value, across the three plain layouts (trailing zeros, inner point, leading "0.") |
| `Transactions.NewTransaction` | context/TransactionsContext.tsx:36-43 | the record carries the given id, title, kind and date unchanged |
| `Transactions.Negate` | context/TransactionsContext.tsx:39 | multiplying by -1 keeps NaN as NaN and a finite value finite |
| `Transactions.AmountSignFollowsKind` | context/TransactionsContext.tsx:39 | the stored amount is NaN exactly when parseFloat is; otherwise it keeps parseFloat's scale and magnitude, and is never positive for gasto and never negative for ingreso |
| `Transactions.TintFollowsKind` | context/TransactionsContext.tsx:42 | the background colour is "#e5ffe5ff" for ingreso and "#ffe7e7ff" for gasto, and two new records have the same colour exactly when they have the same kind |
| `Transactions.WithoutId` | context/TransactionsContext.tsx:49 | the filtered list holds exactly the records of the original whose id differs, and is no longer |
| `Transactions.WithoutIdAppend` | context/TransactionsContext.tsx:49 | filtering distributes over concatenation, so the remaining records keep their relative order |
| `Transactions.WithoutIdRemovesAll` | context/TransactionsContext.tsx:49 | the list shrinks by the number of records carrying the id, and none carrying it remains |
| `Transactions.CountIdZero` | context/TransactionsContext.tsx:49 | no record carries the id exactly when the count of such records is zero |
| `Transactions.WithoutAbsentId` | context/TransactionsContext.tsx:49 | deleting an id that no record carries leaves the list unchanged |
| `Transactions.WithoutIdIdempotent` | context/TransactionsContext.tsx:49 | deleting the same id twice is deleting it once |
| `Transactions.WithoutIdCommutes` | context/TransactionsContext.tsx:49 | deletions of two ids give the same list in either order |
| `Transactions.AddKeepsIdsUnique` | context/TransactionsContext.tsx:36-44 | prepending a record with a fresh id to a list with unique ids keeps the ids unique |
| `Transactions.DeleteKeepsIdsUnique` | context/TransactionsContext.tsx:49 | deleting keeps the ids unique |
| `Transactions.UniqueCountAtMostOne` | context/TransactionsContext.tsx:49 | with unique ids at most one record carries any id |
| `Transactions.UniqueDeleteRemovesOne` | context/TransactionsContext.tsx:49 | with unique ids, deleting an id that is present removes exactly one record |
| `Transactions.AddThenDelete` | context/TransactionsContext.tsx:44-49 | adding a record with a fresh id and then deleting that id gives back the list as it was |
| `Transactions.TransactionsStore.constructor` | context/TransactionsContext.tsx:28 | the store starts empty |
| `Transactions.TransactionsStore.AddTransaction` | context/TransactionsContext.tsx:30-45 | the new list is the new record followed by the previous list |
| `Transactions.TransactionsStore.DeleteTransaction` | context/TransactionsContext.tsx:48-50 | the new list is the previous one without the records carrying the id |
| `TransactionForm.TrimEmptyIffAllSpace` | components/ui/TransactionModal.tsx:52 | a text trims to the empty string exactly when all its characters are ECMAScript white space or line terminators |
| `TransactionForm.TrimAmountText` | components/ui/TransactionModal.tsx:60 | trimming amount text leaves it unchanged, so the amount is blank only when empty |
| `TransactionForm.Message` | components/ui/TransactionModal.tsx:52-67 | every refusal's message is non-empty, so it is displayed |
| `TransactionForm.MessagesDistinct` | components/ui/TransactionModal.tsx:52-67 | different refusals have different messages |
| `TransactionForm.ValidateDecisionTable` | components/ui/TransactionModal.tsx:51-67 | which refusal the guard chain picks for each combination of blank title, empty amount and malformed amount, and that it accepts exactly a non-blank title with an amount holding a digit and at most one point |
| `TransactionForm.AcceptedAmountIsStored` | components/ui/TransactionModal.tsx:64-69 | an accepted amount is finite, and the record built from it holds that value, negated for gasto |
| `TransactionForm.Magnitude` | components/ui/TransactionModal.tsx:47 | `Math.abs(x) \|\| 0` is never NaN and never negative |
| `TransactionForm.DisplaySign` | components/ui/TransactionModal.tsx:41-48 | the preview is empty exactly when the amount is, and otherwise starts with "+" for ingreso and "-" for gasto |
| `TransactionForm.DisplayShowsValue` | components/ui/TransactionModal.tsx:47-48 | for a non-empty amount `Number()` accepts, the preview after the sign is amount text that reads back as the typed value |
| `TransactionForm.DisplayMalformedAsZero` | components/ui/TransactionModal.tsx:47 | an amount `Number()` rejects is previewed as the sign followed by "0" |
| `TransactionForm.TrailingPointNotShown` | components/ui/TransactionModal.tsx:41-49 | the preview of whole digits followed by a point equals the preview of the digits alone |
| `TransactionForm.TransactionModal.constructor` | components/ui/TransactionModal.tsx:21-27 | the initial state: empty texts, gasto, today's date, picker hidden, no error |
| `TransactionForm.TransactionModal.OnVisibleChange` | components/ui/TransactionModal.tsx:29-39 | showing the form resets every field; hiding it changes nothing |
| `TransactionForm.TransactionModal.ChangeTitle` | components/ui/TransactionModal.tsx:96 | the title becomes the typed text and nothing else changes |
| `TransactionForm.TransactionModal.ChangeAmountText` | components/ui/TransactionModal.tsx:103 | the amount becomes the sanitised text and the preview follows it; title, kind, date, picker and error are unchanged |
| `TransactionForm.TransactionModal.SelectType` | components/ui/TransactionModal.tsx:115-139 | the kind becomes the chosen one and the preview takes its sign |
| `TransactionForm.TransactionModal.OpenDatePicker` | components/ui/TransactionModal.tsx:142 | the picker is shown and nothing else changes |
| `TransactionForm.TransactionModal.PickDate` | components/ui/TransactionModal.tsx:151-154 | the picker closes; a chosen date replaces the current one and a dismissal keeps it |
| `TransactionForm.TransactionModal.HandleSave` | components/ui/TransactionModal.tsx:51-70 | exactly one outcome: the message of the first failing check and no call, or the error cleared and onSave called with the untrimmed fields; no other field changes |
| `TransactionForm.SubmitForm` | components/ui/TransactionModal.tsx:68-69 | with the transactions screen's onSave (app/(tabs)/transactions.tsx, lines 99-102) as the callee: the form's fields other than the error keep their values; an entry the guard chain accepts is prepended to the store as the record built from the typed title, amount, kind and date, the error is cleared and the form closes; a refused one sets the error to the first failing check's message and leaves the store as it was and the form open |

## Left out

- Floating point: amounts are exact decimals. IEEE-754 rounding of long digit strings, `-0` (an expense of `0` is stored as `-0` by the application, here as 0), `Infinity` for huge inputs and the shortest-round-trip digit choice of Number::toString for values that are not exactly representable are not modelled.
- `AmountText.ParseFloat`: reads only a prefix of digits with an optional point and digits; leading white space, signs, exponents and `Infinity` are not modelled. The store only receives sanitised text from the form.
- `AmountText.NumberOf`: defined only on text made of digits and points, the only text the amount field can hold; `Number()`'s white space, sign, hexadecimal and exponent forms are not modelled.
- `NumberFormat.NumberToStringRoundTrip`: the round trip is proved only where Number::toString does not use exponent notation (decimal exponent between -5 and 21); the exponent form is modelled but not read back.
- `TransactionForm.DisplayShowsValue`: the same restriction to values shown without exponent notation.
- Dates: the record holds the `Date` value instead of its `toISOString()` text; `toLocaleDateString` in the date button and the platform-dependent picker display are not modelled.
- `Date.now()` and `new Date()` are parameters (`id`, `today`); nothing makes consecutive clock readings distinct, so lemmas that need a fresh id take it as a precondition.
- React: each effect is modelled as running together with the state change that triggers it; intermediate renders before an effect runs are not modelled. The context plumbing and the error thrown by `useTransactions` outside its provider are not modelled.
- The modal's `visible` flag and `onClose` belong to the transactions screen; `SubmitForm` reports whether the form closes instead of holding that flag.
- Rendering: JSX, styles, the button colour table, the delete button and its confirmation delay, the dropdown, the onboarding screen and the other tabs.
- Totals of income, expense and savings: the home and analytics screens show fixed figures and compute nothing from the list, so there is nothing to model there.
