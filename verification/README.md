# Voting-Dapp helpers and poll forms, modelled in Dafny

Voting-Dapp is a Next.js front end for an on-chain voting contract. This
project models the two parts of it that hold sequential logic, and proves
properties of the model:

- the pure helpers in `utils/helper.ts`:
  - `truncate` shortens an address to a head, dots and a tail;
  - `structurePolls` and `structureContestants` turn contract records into
    page records and order them;
  - `formatDate` renders a time value as `Www, Mmm D, YYYY` in UTC;
- the two modal forms `CreatePoll` and `ContestPoll`, as pure state
  machines. Each form is a record. Each handler is a transition:
  - `handleChange` writes one field;
  - `handleImageUpload` runs in two halves, before and after its `await`;
  - `handleSubmit` checks its guards, then makes the contract call;
  - `closeModal` empties the form and hides it.

The upload result and the transaction result are parameters of the
transitions (`UploadOutcome`, `TxOutcome`). So are the connected wallet and
the host's date parser.

Modules:

| module | file | contents |
|---|---|---|
| `Wrappers` | wrappers.dfy | an optional value, `Min` and `Max` |
| `Text` | text.dfy | ASCII `toLowerCase`, `substring` with its index clamping, decimal rendering of integers |
| `Truncation` | truncation.dfy | `truncate` as a method with its padding loop, and a loop-free reference definition |
| `Calendar` | calendar.dfy | week day, year, month and day of month of a time value, as section 21.4.1 of ECMA-262 defines them |
| `DateFormat` | date_format.dfy | `formatDate` |
| `Sorting` | sorting.dfy | the stable descending sort both normalisers use, and why it has only one possible result |
| `Structure` | structure.dfy | `structurePolls`, `structureContestants` |
| `Forms` | forms.dfy | upload outcomes, toasts, the two-guard submission order shared by both forms |
| `CreatePoll` | create_poll.dfy | the Create Poll modal |
| `ContestPoll` | contest_poll.dfy | the Become a Contestant modal |

Two behaviours of the code that the model keeps as written:

- `handleSubmit` in CreatePoll writes the converted dates into the form
  state itself, at components/CreatePoll.tsx:37-38. A rejected transaction
  therefore does not leave the form as the user left it: both dates now hold
  Numbers. A retry sends the same parameters again, or is silently ignored
  when a converted date is NaN or 0 (`CreatePoll.RetryAfterRejection`).
- The upload flag `isLoading` changes only what the modal shows: the
  spinner appears and the image preview is hidden (components/CreatePoll.tsx:192,
  components/ContestPoll.tsx:137). Nothing disables submission while an
  image uploads (`CreatePoll.SubmitIgnoresLoading`).

## Model

| member | source | states |
|---|---|---|
| `Truncation.PadWithDots` | utils/helper.ts:7-9 | the loop appends exactly as many dots as bring the two ends up to `maxLength`, none if they already reach it, and stops |
| `Truncation.Truncate` | utils/helper.ts:3-13 | `truncate` computes exactly the loop-free result `Truncated`: the text itself when short enough, else head, as many dots as reach `maxLength`, tail |
| `Truncation.TruncatedShape` | utils/helper.ts:4-12 | a text within `maxLength` is returned unchanged; a longer one is its clamped head, then only dots, then its clamped tail, as long as `maxLength` or as the two ends together, whichever is more, hence exactly `maxLength` when the two ends fit |
| `Text.SubstringHead` | utils/helper.ts:5 | `text.substring(0, n)` is the prefix of length `n` clamped into `[0, length]` |
| `Text.SubstringTail` | utils/helper.ts:6 | `text.substring(length - n, length)` is the suffix of length `n` clamped into `[0, length]` |
| `Text.SubstringSymmetric` | utils/helper.ts:5-6 | `substring` gives the same string whichever order its two indices come in |
| `Text.Lower` | utils/helper.ts:63 | `toLowerCase` leaves no upper-case letter and changes nothing but case |
| `Text.LowerEqualIff` | utils/helper.ts:63 | two addresses lower-case to the same string exactly when they agree up to case |
| `Text.LowerFixedIff` | utils/helper.ts:63 | lower-casing leaves a string unchanged exactly when it has no upper-case letter |
| `Text.LowerIdempotent` | utils/helper.ts:63 | lower-casing twice is lower-casing once |
| `Text.LowerAll` | utils/helper.ts:67 | `voters.map(v => v.toLowerCase())` keeps count and order and lower-cases each entry |
| `Text.LowerAllFixedIff` | utils/helper.ts:67 | the mapped voter list equals the input exactly when every entry is already lower-case |
| `Text.NatToString` | utils/helper.ts:38 | the decimal digits of a natural number, without padding or leading zeros, denote that number |
| `Text.IntToStringRoundTrip` | utils/helper.ts:38 | the rendering of an integer in the template can be read back to that integer |
| `Text.IntToStringInjective` | utils/helper.ts:38 | different days or years render differently |
| `Calendar.WeekDay` | utils/helper.ts:33 | `getUTCDay` is in `0..6` |
| `Calendar.DayFromYearClosedForm` | utils/helper.ts:36 | the year-by-year count of days agrees with the closed form of `DayFromYear` in section 21.4.1 of ECMA-262 |
| `Calendar.DayFromYearMonotone` | utils/helper.ts:36 | each year is at least 365 days long |
| `Calendar.YearFromDay` | utils/helper.ts:36 | the year of a day is the one whose first day is the last not after it |
| `Calendar.YearOfDayUnique` | utils/helper.ts:36 | a day belongs to exactly one year |
| `Calendar.MonthStartStep` | utils/helper.ts:34-35 | the month-start table adds up the month lengths and ends at the length of the year |
| `Calendar.MonthOfDayInYear` | utils/helper.ts:34 | `getUTCMonth` is the month whose range holds the day within the year |
| `Calendar.CivilFromDays` | utils/helper.ts:34-36 | year, month and day of month of a day form a valid calendar date naming that day |
| `Calendar.CivilRoundTrip` | utils/helper.ts:34-36 | decomposing the day a valid date names gives back that date |
| `Calendar.DaysFromCivilInjective` | utils/helper.ts:34-36 | two valid dates name the same day only if they are equal |
| `DateFormat.FormatDate` | utils/helper.ts:15-39 | `formatDate` itself; its contract is given by `FormatDateOfDate` and `FormatDateOfDay` (a valid instant renders as its UTC date) and `FormatOutOfRange` (any other renders as the Invalid Date text) |
| `DateFormat.FormatDateOfDate` | utils/helper.ts:15-39 | any instant of a calendar date renders as that date's week-day name, month name, unpadded day and year, joined as `Www, Mmm D, YYYY` |
| `DateFormat.FormatDateOfDay` | utils/helper.ts:33-38 | an instant whose UTC day is the day a date names renders as that date |
| `DateFormat.DayOfTime` | utils/helper.ts:16 | every millisecond of a day lies in that day |
| `DateFormat.UtcDateOfDay` | utils/helper.ts:34-36 | the UTC date of an instant is the date naming its day |
| `DateFormat.FormatDateOnlyDependsOnDay` | utils/helper.ts:16-38 | two instants of the same UTC day render identically, so only the time value, not the host's zone, decides the text |
| `DateFormat.FormatDateSeparatesDays` | utils/helper.ts:16-38 | instants of different UTC days render differently |
| `DateFormat.RenderInjective` | utils/helper.ts:38 | the week day, month, day and year can be read back from the rendered text |
| `DateFormat.NamesAreThreeLetters` | utils/helper.ts:17-31 | every week-day and month name has three letters |
| `DateFormat.MonthNamesDistinct` | utils/helper.ts:18-31 | the twelve month names are pairwise different |
| `DateFormat.EpochIsThursday` | utils/helper.ts:17-33 | time value 0 renders on a Thursday |
| `DateFormat.FormatOutOfRange` | utils/helper.ts:16-38 | every time value more than 8.64e15 ms from the epoch, on either side, renders as the Invalid Date text |
| `Sorting.Insert` | utils/helper.ts:70 | inserting into a sorted list keeps it sorted and adds exactly the one element |
| `Sorting.SortDesc` | utils/helper.ts:70 | the sort returns a permutation of its input ordered by non-increasing key |
| `Sorting.InsertWithKey` | utils/helper.ts:70 | insertion keeps the elements of each key in order, the new one first |
| `Sorting.SortStable` | utils/helper.ts:70 | for each key, the elements with that key keep their input order |
| `Sorting.SortStableAll` | utils/helper.ts:70 | stability holds for all keys at once |
| `Sorting.SortedDeterminedByKeys` | utils/helper.ts:70 | two sorted lists that agree on the order within every key are equal |
| `Sorting.SortUnique` | utils/helper.ts:70 | a stable descending sort has exactly one possible result |
| `Sorting.SortSortedIsIdentity` | utils/helper.ts:70 | sorting a sorted list changes nothing |
| `Structure.StructurePoll` | utils/helper.ts:55-69 | one poll record: every field other than the addresses copied, `director` and each voter lower-cased with count and order kept |
| `Structure.StructurePollUnique` | utils/helper.ts:55-69 | those properties leave only one possible structured poll |
| `Structure.StructurePollFixedIff` | utils/helper.ts:55-69 | structuring a page poll again leaves it unchanged exactly when its addresses are lower-case |
| `Structure.StructurePollIdempotent` | utils/helper.ts:55-69 | structuring a structured poll again changes nothing |
| `Structure.StructurePolls` | utils/helper.ts:53-70 | as many polls out as in, a permutation of the structured records, newest first, ties in contract order |
| `Structure.StructurePollsFromInputs` | utils/helper.ts:53-70 | every poll listed is the structured form of some input record, with lower-case addresses |
| `Structure.StructurePollsUnique` | utils/helper.ts:53-70 | any newest-first listing of the structured records that keeps ties in contract order is the one returned |
| `Structure.StructurePollsIdempotent` | utils/helper.ts:53-70 | running `structurePolls` on its own output gives the same list |
| `Structure.StructureContestant` | utils/helper.ts:74-81 | one contestant record: id, image, name and votes copied, `voter` and each voter lower-cased with count and order kept |
| `Structure.StructureContestantUnique` | utils/helper.ts:74-81 | those properties leave only one possible structured contestant |
| `Structure.StructureContestantFixedIff` | utils/helper.ts:74-81 | structuring a page contestant again leaves it unchanged exactly when its addresses are lower-case |
| `Structure.StructureContestants` | utils/helper.ts:72-82 | as many contestants out as in, a permutation of the structured records, most votes first, ties in contract order |
| `Structure.StructureContestantsFromInputs` | utils/helper.ts:72-82 | every contestant listed is the structured form of some input record, with lower-case addresses |
| `Structure.StructureContestantsUnique` | utils/helper.ts:72-82 | any most-votes-first listing that keeps ties in contract order is the one returned |
| `Structure.StructureContestantsIdempotent` | utils/helper.ts:72-82 | running `structureContestants` on its own output gives the same list |
| `Structure.MostVotedFirst` | utils/helper.ts:82 | a contestant with 3 votes given before one with 10 comes out after it |
| `Forms.Guarded` | components/CreatePoll.tsx:34-35 | a submission is ignored exactly when a field is falsy, warns exactly when the fields pass and the wallet is empty, and calls out only when both guards pass |
| `CreatePoll.ValuesDetermineParams` | components/CreatePoll.tsx:16-22 | the five fields make up the whole of the poll parameters |
| `CreatePoll.HandleChange` | components/CreatePoll.tsx:83-89 | the named field holds the new text and every other field is unchanged |
| `CreatePoll.ChangeOverwrites` | components/CreatePoll.tsx:83-89 | a second write to a field replaces the first |
| `CreatePoll.ChangesCommute` | components/CreatePoll.tsx:83-89 | writes to two different fields can happen in either order |
| `CreatePoll.ChangeToCurrentValue` | components/CreatePoll.tsx:83-89 | writing the text a field already holds changes nothing |
| `CreatePoll.StartUpload` | components/CreatePoll.tsx:59-62 | without a file nothing changes; with one only the upload flag is set |
| `CreatePoll.FinishUpload` | components/CreatePoll.tsx:64-80 | success sets the image to the URL or `''`; failure and exception leave the fields alone; the flag ends cleared; the toast reports the outcome |
| `CreatePoll.HandleImageUpload` | components/CreatePoll.tsx:58-81 | the whole upload: no file changes nothing; otherwise only the image follows the outcome and the flag ends cleared |
| `CreatePoll.ChangeDuringUploadKept` | components/CreatePoll.tsx:67-70 | an edit of another field made while the file uploads survives the upload |
| `CreatePoll.Clip` | components/CreatePoll.tsx:37-38 | a time value outside the range of Date objects becomes NaN, one inside is kept |
| `CreatePoll.DateToTime` | components/CreatePoll.tsx:37-38 | `new Date(v).getTime()` is NaN or a time value inside the range of Date objects; a stored Number already in range comes back unchanged, and a stored NaN stays NaN |
| `CreatePoll.DateToTimeIdempotent` | components/CreatePoll.tsx:37-38 | converting an already converted date gives the same Number |
| `CreatePoll.ConvertDates` | components/CreatePoll.tsx:37-38 | the conversion turns both dates into Numbers and leaves the text fields alone |
| `CreatePoll.Submit` | components/CreatePoll.tsx:30-42 | ignored exactly when one of the five fields is falsy; warns exactly when they pass and the wallet is empty; otherwise `createPoll` is called with the form state, text fields as typed and dates converted |
| `CreatePoll.CloseModal` | components/CreatePoll.tsx:91-100 | every field emptied, the modal class set to `scale-0` |
| `CreatePoll.Settle` | components/CreatePoll.tsx:40-55 | a resolved transaction hides the modal, resets every field to its initial empty value and leaves the upload flag alone, with the success toast; a rejected one leaves the state as it was, with the error toast |
| `CreatePoll.SubmitAndSettle` | components/CreatePoll.tsx:34-49 | a whole submission never touches the upload flag and either leaves the modal's class as it was or hides the modal; `ClosesOnlyWhenResolved` states when it hides it |
| `CreatePoll.ClosesOnlyWhenResolved` | components/CreatePoll.tsx:34-48 | a submission closes the modal exactly when both guards pass and the transaction resolves, and then leaves the fields empty |
| `CreatePoll.RetryAfterRejection` | components/CreatePoll.tsx:34-48 | after a rejection the dates stay converted; a retry sends the same parameters, or nothing when a converted date is falsy |
| `CreatePoll.ClosedFormIgnoresSubmit` | components/CreatePoll.tsx:91-100 | submitting a just-closed form does nothing |
| `CreatePoll.SubmitIgnoresLoading` | components/CreatePoll.tsx:30-35 | an upload in progress does not keep a submission from being sent |
| `ContestPoll.ValuesDetermineParams` | components/ContestPoll.tsx:18-21 | name and image make up the whole of the contestant parameters |
| `ContestPoll.HandleChange` | components/ContestPoll.tsx:23-29 | the named field holds the new text and the other field is unchanged |
| `ContestPoll.ChangeOverwrites` | components/ContestPoll.tsx:23-29 | a second write to a field replaces the first |
| `ContestPoll.ChangesCommute` | components/ContestPoll.tsx:23-29 | writes to name and image can happen in either order |
| `ContestPoll.StartUpload` | components/ContestPoll.tsx:32-35 | without a file nothing changes; with one only the upload flag is set |
| `ContestPoll.FinishUpload` | components/ContestPoll.tsx:37-53 | success sets the image to the URL or `''`; failure and exception leave the fields alone; the name is kept; the flag ends cleared |
| `ContestPoll.HandleImageUpload` | components/ContestPoll.tsx:31-54 | the whole upload: no file changes nothing; otherwise only the image follows the outcome and the flag ends cleared |
| `ContestPoll.NameChangeDuringUploadKept` | components/ContestPoll.tsx:40-43 | a name typed while the file uploads survives the upload |
| `ContestPoll.Submit` | components/ContestPoll.tsx:56-64 | ignored exactly when name or image is empty; warns exactly when both are set and the wallet is empty; otherwise `contestPoll` gets the displayed poll's id and the form's name and image, and the form is not touched |
| `ContestPoll.CloseModal` | components/ContestPoll.tsx:80-86 | both fields emptied, the modal class set to `scale-0` |
| `ContestPoll.Settle` | components/ContestPoll.tsx:62-77 | a resolved transaction hides the modal, resets name and image to the empty string and leaves the upload flag alone, with the success toast; a rejected one leaves the state as it was, with the error toast |
| `ContestPoll.SubmitAndSettle` | components/ContestPoll.tsx:59-71 | a whole submission never touches the upload flag and either leaves the modal's class as it was or hides the modal; `ClosesOnlyWhenResolved` states when it hides it |
| `ContestPoll.ClosesOnlyWhenResolved` | components/ContestPoll.tsx:59-70 | a submission closes the modal exactly when both guards pass and the transaction resolves; otherwise the form is as it was |
| `ContestPoll.RetryAfterRejection` | components/ContestPoll.tsx:59-70 | after a rejection, submitting again makes the very same call |
| `ContestPoll.ClosedFormIgnoresSubmit` | components/ContestPoll.tsx:80-86 | submitting a just-closed form does nothing |

## Left out

- `formatTimestamp` (utils/helper.ts:41-51): it reads the host's local time zone, which the model has no way to state.
- `services/pinata.ts`: it does HTTP I/O with keys from the environment. The forms see only its result, as `Forms.UploadOutcome`.
- `createPoll` and `contestPoll` from `services/blockchain`: that module is not part of this model. Their calls appear as the `call` of `Forms.Submission`, and the way they end as `Forms.TxOutcome`.
- `pages/_app.tsx`, `migrations/2_deploy_contracts.js` and `hardhat.config.js`: bootstrap, deployment and configuration, with no logic the helpers or forms depend on.
- JSX markup, CSS classes other than the `scale-0` that `closeModal` sets, toast rendering, the pending toast of `toast.promise`, and the `useEffect` and `console` logging. The model keeps which toast is raised and its text, not how it is shown.
- The wiring of the ContestPoll form, whose `onClick` (components/ContestPoll.tsx:103) fires `handleSubmit` on any click inside the form. Submission is modelled as one abstract event.
- Parsing a `datetime-local` string with `new Date(string)`: it depends on the host and its time zone. It is the parameter `parse` of `CreatePoll.Submit`.
- `Number(...)` coercion of the contract's values: the numeric fields arrive as integers. A value above 2^53 would lose precision in the source; the model does not show that loss.
- The comparators `b.timestamp - a.timestamp` and `b.votes - a.votes` subtract floating-point numbers. The model compares integers, which agrees as long as the values are exactly representable.
- Non-ASCII letters: `toLowerCase` is modelled on ASCII only, since the lower-cased values are hex addresses.
- String length: it counts characters, where JavaScript counts UTF-16 code units. The two agree on ASCII text, which the model assumes `truncate` is given; no caller of `truncate` is part of this model.
- `handleChange` with a `name` outside the form's fields: the source would add a new property to the state object, and no input of either form has such a name.
- Truncation.Truncate: `startChars`, `endChars` and `maxLength` are integers, where `truncate` accepts any Number. A fractional index is truncated by `substring` (`endChars = 4.5` on a 10-character text keeps 5 tail characters), a fractional `maxLength` is reached only at the next whole length (`10.5` pads to 11), and a `NaN` `maxLength` fails the length test so the text comes back unchanged. None of these inputs can be written as an `int`.
- DateFormat.FormatDate: its argument is an integer, where `formatDate` accepts any Number. A fractional argument is truncated toward zero by `TimeClip`, so `formatDate(-0.5)` renders as `Thu, Jan 1, 1970`; `NaN` renders as the Invalid Date text. Neither input can be written as an `int`.
- Structure.StructurePolls: a `RawPoll` always has a `director` and a `voters` list. The source throws a `TypeError` when either is missing (utils/helper.ts:63, 67); that error path is not modelled.
- Structure.StructureContestants: a `RawContestant` always has a `voter` and a `voters` list. The source throws a `TypeError` when either is missing (utils/helper.ts:78, 80); that error path is not modelled.
- Concurrent uploads: two overlapping `handleImageUpload` calls are not modelled beyond the two halves of one call. An edit between the halves is covered by `CreatePoll.ChangeDuringUploadKept` and `ContestPoll.NameChangeDuringUploadKept`.
