# Department statistics and the food column mover, in Dafny

This project models the two pieces of logic in a small Next.js application.
Everything else in the application is rendering or HTTP.

1. **`transformData`** turns the user list of a remote endpoint into per-department statistics.
   - Each department gets a male and a female counter and a hair-colour histogram.
   - It gets a map from concatenated full name (`firstName + lastName`) to postal code.
   - It gets an age range, stored as the string `"min-max"`. Each user's update re-parses that string with `split("-")` and `parseInt`, and prints it back after `Math.min`/`Math.max`.
   - The function exists twice, in `src/lib/api/user.ts` and in `src/app/users/page.tsx`, together with a `fetchAndTransform` that returns `null` when the fetch did.
2. **The column mover** of the home page (`src/app/page.tsx`) works on three lists of foods: Main, Fruit and Vegetable.
   - Clicking a food in Main moves it into the column of its type and schedules, via a 5-second `setTimeout`, a return to Main.
   - Clicking a food in a type column returns it at once.
   - The timer is never cancelled. A late firing must therefore be harmless.

## Modules

- `Wrappers` (`wrappers.dfy`) holds `Option`, which stands for the `null` a failed fetch gives.
- `UserModel` (`user_model.dfy`) holds the record shapes of `src/model/user.ts` as datatypes.
  - Ages are `nat`.
  - A missing hair colour or postal code is the empty string, which is what the source's truthiness tests treat as missing.
- `AgeRange` (`age_range.dfy`) is the `"min-max"` string and the per-user step that rewrites it.
  - JavaScript numbers are a small datatype `JsNum`: naturals, `NaN`, `Infinity` and `-Infinity`.
  - `split` and `parseInt` are modelled on strings.
  - The round trip is proved: `parseInt` of the pieces of `"lo-hi"` gives back `lo` and `hi`. So on strings the step wrote itself, the string fold is plain min/max tracking.
- `Summary` (`summary.dfy`) gives independent reference definitions of what a department summary should hold, stated directly over that department's users in input order. These are counts, histogram, last writer per name, and min and max.
- `Aggregate` (`aggregate.dfy`) holds the per-user update, the per-user map step and `transformData` as a left fold.
  - The main theorem: the fold's keys are exactly the input departments, and each entry is `Summarize` of that department's users.
  - The single guarantees follow from it, and a worked two-user example is included.
  - Across departments, the `male + female` counters add up to the number of users whose gender is exactly one of those two strings, so never more than the number of users.
- `UsersPage` (`users_page.dfy`) is the page's copy of `transformData`, written as the `forEach` loop it is. It is proved equal to the fold, so every guarantee above holds for the page too. Its `fetchAndTransform` is here as well.
- `ColumnMover` (`column_mover.dfy`) holds the three transitions on an immutable board.
  - The transitions are `handleMoveToColumn`, `moveToMainList` and `handleImmediateReturn`.
  - Pending timers are a multiset of `Pending(item, column)`; firing one removes it and runs the return.
  - Facts about filtering by name, and idempotence of the return.
- `MoverTrace` (`mover_trace.dfy`) allows arbitrary interleavings of clicks and timer firings.
  - An event is possible only when the screen offers it: a button exists only for an entry of the list it is rendered from, and a timer fires only while pending.
  - The invariant: the three lists together hold exactly the initial foods, and each type column holds only its own type.
  - Consequence: after any run from the first render, every initial food is in exactly one column, exactly once. There are 11 entries and no name shows twice.

The column mover knows exactly two categories.
- `handleMoveToColumn` handles the types `"Fruit"` and `"Vegetable"` only.
- A food of any other type that is moved out of Main is dropped, and no return is scheduled for it. `ColumnMover.HandleMoveToColumn` models that case as written.
- The exactly-once invariant is therefore proved for food lists whose foods are all Fruit or Vegetable. The initial list is one of them.

## Model

| member | source | states |
|---|---|---|
| AgeRange.NatToString | src/lib/api/user.ts:57 | A printed age is a non-empty string of decimal digits, with a leading `0` only for the age 0 |
| AgeRange.LeadingDigits | src/lib/api/user.ts:55-56 | The part of a piece that `parseInt` reads is the longest prefix made of digits |
| AgeRange.ParseInt | src/lib/api/user.ts:55-56 | `parseInt` gives `NaN` exactly when the piece is empty or does not start with a digit |
| AgeRange.Split | src/lib/api/user.ts:55-56 | `split("-")` always yields at least one piece, so piece `[0]` always exists; no piece contains a `-`; there is exactly one piece iff the string has no `-`; the first piece is empty iff the string is empty or starts with `-` |
| AgeRange.SplitJoin | src/lib/api/user.ts:55-56 | Splitting the `-`-join of at least one `-`-free piece gives back exactly those pieces |
| AgeRange.ReadMin | src/lib/api/user.ts:55 | The lower bound read back is `Infinity` exactly when the range is empty, and `NaN` exactly when a non-empty range does not start with a digit |
| AgeRange.ReadMax | src/lib/api/user.ts:56 | The upper bound read back is `-Infinity` exactly when the range is empty; a non-empty range without a `-` has no second piece and reads as `NaN`; a number is read only from a range holding a `-` |
| AgeRange.NumToString | src/lib/api/user.ts:57 | A printed value is non-empty and starts with a digit exactly when it is a number; a printed number is all digits with no `-` |
| AgeRange.ParseIntOfNumToString | src/lib/api/user.ts:55-57 | Reading back a printed value gives the number for a number and `NaN` for `NaN` and both infinities |
| AgeRange.EncodeRange | src/lib/api/user.ts:57 | The template `"${lo}-${hi}"` splits on `-` into exactly two pieces, the printed `lo` and the printed `hi` |
| AgeRange.JsMin | src/lib/api/user.ts:57 | `Math.min` with the `Infinity` sentinel gives the age; `NaN` and `-Infinity` absorb; for a number it is one of the two arguments and at most both |
| AgeRange.JsMax | src/lib/api/user.ts:57 | `Math.max` with the `-Infinity` sentinel gives the age; `NaN` and `Infinity` absorb; for a number it is one of the two arguments and at least both |
| AgeRange.AgeStep | src/lib/api/user.ts:55-57 | The rewritten age range is never the empty string |
| AgeRange.ParseIntOfNatToString | src/lib/api/user.ts:55-57 | Parsing the printed form of any natural number gives that number back |
| AgeRange.JoinSplit | src/lib/api/user.ts:55-56 | Splitting on `-` loses nothing: joining the pieces with `-` restores the string |
| AgeRange.RangeRoundTrip | src/lib/api/user.ts:55-57 | A range string the step wrote reads back as exactly the bounds it was written from, and is non-empty |
| AgeRange.EncodeRangeInjective | src/lib/api/user.ts:57 | Two range strings are equal only when their bounds are equal |
| AgeRange.AgeStepFromEmpty | src/lib/api/user.ts:55-57 | From the empty string the first age gives the one-point range `"a-a"` |
| AgeRange.AgeStepTracksMinMax | src/lib/api/user.ts:55-57 | On a range it wrote itself, the string step is min/max tracking of the ages |
| Summary.DeptUsers | src/lib/api/user.ts:23-24 | A department's users are exactly the input users whose department is that one, and no more than the input |
| Summary.CountHair | src/lib/api/user.ts:45-47 | A colour's count is positive exactly when it is non-empty and some user has it |
| Summary.MinAge | src/lib/api/user.ts:55-57 | The reference lower bound is an age of the users and no user is younger |
| Summary.MaxAge | src/lib/api/user.ts:55-57 | The reference upper bound is an age of the users and no user is older |
| Summary.LastPostalIsLast | src/lib/api/user.ts:50-52 | The reference postal code for a name exists exactly for names filed under, and belongs to a user after whom nobody else files under that name |
| Summary.DeptUsersOfAbsent | src/lib/api/user.ts:27-35 | A department nobody belongs to has no users |
| Summary.GenderCountsBounded | src/lib/api/user.ts:40-42 | Users with another gender count as neither, so the two counters never exceed the number of users |
| Aggregate.NewSummary | src/lib/api/user.ts:27-35 | A new department entry starts with both counters 0, an empty age range and empty maps |
| Aggregate.UpdateDept | src/lib/api/user.ts:37-57 | One user's update makes the age range non-empty, adds one to the counter total exactly for `"male"`/`"female"`, and removes no key |
| Aggregate.TallyHair | src/lib/api/user.ts:45-47 | A non-empty colour becomes a key (an empty one adds none); every other colour's count is unchanged |
| Aggregate.FileAddress | src/lib/api/user.ts:50-52 | A non-empty postal code under a non-empty name adds that name as a key; other names keep their codes; nothing is removed |
| Aggregate.Step | src/lib/api/user.ts:23-58 | A user adds its department as a key, leaves every other department's entry unchanged, and starts a missing department from a new entry |
| Aggregate.FetchAndTransform | src/lib/api/user.ts:64-72 | The result is `null` exactly when the fetch gave `null`; otherwise its keys are the users' departments and each entry summarises that department's users |
| Aggregate.HairSnoc | src/lib/api/user.ts:45-47 | The reference histogram of one more user is the histogram so far with that user's colour tallied |
| Aggregate.AddressSnoc | src/lib/api/user.ts:50-52 | The reference address map of one more user is the map so far with that user's code filed |
| Aggregate.AgeSnoc | src/lib/api/user.ts:55-57 | The reference age range of one more user is one string step from the range so far |
| Aggregate.GenderSnoc | src/lib/api/user.ts:40-42 | One more user bumps only the counter of their exact gender |
| Aggregate.SummarizeSnoc | src/lib/api/user.ts:37-57 | Summarising one more user equals one per-user update of the summary so far |
| Aggregate.TotalGenderCount | src/lib/api/user.ts:40-42 | Summed over all departments, `male + female` is the number of users whose gender is exactly `"male"` or `"female"`, and so at most the number of users |
| Aggregate.TransformDataKeys | src/lib/api/user.ts:21-36 | The output keys are exactly the departments of the input users |
| Aggregate.TransformDataEntry | src/lib/api/user.ts:20-61 | Each department's entry is the reference summary of that department's users in input order |
| Aggregate.TransformDataMatchesSummary | src/lib/api/user.ts:20-61 | `transformData` as a whole: the output keys are the input departments, an empty input gives the empty map, and every entry is its department's reference summary |
| Aggregate.GenderCounts | src/lib/api/user.ts:40-42 | `male`/`female` count the department's users with exactly that gender, and together never exceed them |
| Aggregate.HairHistogram | src/lib/api/user.ts:45-47 | A colour is a key exactly when it is non-empty and some user of the department has it, and its value is their number |
| Aggregate.AddressLastWriter | src/lib/api/user.ts:50-52 | A full name is a key exactly when a user of the department files under it, and its code is that of the last such user in input order |
| Aggregate.AgeRangeIsMinMax | src/lib/api/user.ts:55-57 | Every present department's age range is non-empty and is `"min-max"` of its users' ages |
| Aggregate.EngineeringExample | src/lib/api/user.ts:20-61 | Two users of one department give one man, one woman, `"25-30"`, two black-haired users and both addresses |
| UsersPage.TransformUsers | src/app/users/page.tsx:21-62 | The page's loop computes the library fold: keys are the departments, an empty input gives the empty map, entries are the reference summaries, the counters are bounded and age ranges are non-empty |
| UsersPage.FetchAndTransform | src/app/users/page.tsx:65-73 | `null` exactly when the fetch gave `null`, otherwise the aggregate of the fetched users |
| ColumnMover.WithoutName | src/app/page.tsx:29 | Filtering by name never lengthens the list, and shortens it whenever some entry has the name |
| ColumnMover.WithoutNameMembers | src/app/page.tsx:29 | Filtering by name keeps exactly the entries with another name, so no entry with the name is left |
| ColumnMover.WithoutNameCount | src/app/page.tsx:29 | Filtering keeps each surviving entry's multiplicity and removes every entry with the name |
| ColumnMover.WithoutNameAbsent | src/app/page.tsx:42-44 | Filtering a list that has no entry with the name changes nothing |
| ColumnMover.WithoutNameAppend | src/app/page.tsx:29 | Filtering distributes over concatenation, so the survivors keep their order |
| ColumnMover.WithoutNameIdempotent | src/app/page.tsx:42-44 | Filtering twice by one name is filtering once |
| ColumnMover.MoveToMainList | src/app/page.tsx:40-53 | After a return the name is in Main; Main is unchanged if it already had the name and otherwise gains exactly the item at its end; the named column is filtered by the name and no longer has it; the other column, and both for an unknown column string, are unchanged |
| ColumnMover.HandleMoveToColumn | src/app/page.tsx:28-38 | Main is filtered by the name; a Fruit or Vegetable goes to the end of its column with one return scheduled; any other type is dropped with nothing scheduled |
| ColumnMover.HandleImmediateReturn | src/app/page.tsx:55-57 | A manual return runs the return transition on the board, puts the name in Main and leaves the pending timers alone |
| ColumnMover.FireTimer | src/app/page.tsx:33-36 | A firing timer leaves the pending set (exactly one copy), runs the return transition for its food and column, and puts the food's name in Main |
| ColumnMover.ReturnIdempotent | src/app/page.tsx:40-53 | Applying a return twice is applying it once |
| ColumnMover.ReturnWhenBack | src/app/page.tsx:47-52 | A return for a food already in Main and absent from the named column changes no list |
| ColumnMover.ManualReturnIsTimerReturn | src/app/page.tsx:33-57 | A manual return and the matching timer firing run the same board transition |
| MoverTrace.Enabled | src/app/page.tsx:63-76 | A Main click names a food whose name is in Main; a column click names the Fruit or the Vegetable column; a timer fires only while some timer is pending |
| MoverTrace.Apply | src/app/page.tsx:28-57 | A Main click takes the name out of Main and schedules at most one timer; a column click puts the name in Main and keeps the timers; a firing puts the name in Main and uses up one timer |
| MoverTrace.Run | src/app/page.tsx:28-76 | A run that goes through began with an offered event and ends with at most one new timer per event |
| MoverTrace.InitialDataFacts | src/app/page.tsx:10-22 | The initial list has eleven foods with pairwise different names, each a Fruit or a Vegetable |
| MoverTrace.DistinctNamesCount | src/app/page.tsx:10-22 | In a list with distinct names a food occurs once and is the only one with its name |
| MoverTrace.InvFacts | src/app/page.tsx:24-26 | Under the invariant, a food on the board is an initial food of a known type, in exactly one column, once |
| MoverTrace.MoveKeepsContents | src/app/page.tsx:28-38 | Moving a food out of Main keeps the three lists a partition of the initial foods |
| MoverTrace.MoveKeepsInv | src/app/page.tsx:28-38 | Moving a food out of Main keeps the invariant |
| MoverTrace.ReturnFromColumnMovesItem | src/app/page.tsx:40-53 | Under the invariant, returning a food that is not in Main from its type's column: it was in that column, Main gains exactly it at the end, and neither column holds it afterwards |
| MoverTrace.ReturnFromColumnKeepsContents | src/app/page.tsx:40-53 | Returning a food that is not in Main keeps the three lists a partition of the initial foods |
| MoverTrace.ReturnKeepsInv | src/app/page.tsx:40-57 | A return to the column of the food's type keeps the invariant wherever the food currently is |
| MoverTrace.FireKeepsInv | src/app/page.tsx:33-36 | A timer firing keeps the invariant, however stale it is |
| MoverTrace.StepKeepsInv | src/app/page.tsx:28-57 | Every event the screen offers keeps the invariant |
| MoverTrace.RunKeepsInv | src/app/page.tsx:24-57 | Any run of offered events keeps the invariant |
| MoverTrace.InvNamesDistinct | src/app/page.tsx:24-57 | Under the invariant no name shows twice across the three lists |
| MoverTrace.ExactlyOnceAfterAnyRun | src/app/page.tsx:10-57 | After any interleaving from the first render, each initial food is in exactly one column, once; nothing else is on the board; names are distinct; there are 11 entries; columns hold only their own type |
| MoverTrace.StaleFireIsNoOp | src/app/page.tsx:40-53 | A timer firing for a food already back in Main changes none of the three lists |
| MoverTrace.InitialWithoutApple | src/app/page.tsx:29 | Filtering Apple out of the initial list leaves the other ten foods in order |
| MoverTrace.AppleClick | src/app/page.tsx:28-33 | Clicking Apple on first render moves it to the Fruit column and schedules its one return |
| MoverTrace.ReturnLoneEntry | src/app/page.tsx:40-57 | Clicking the only Fruit entry, whose name is not in Main, appends it to Main and empties the column |
| MoverTrace.AppleReturn | src/app/page.tsx:55-57 | Clicking Apple in the Fruit column brings it back to the end of Main while its timer stays pending |
| MoverTrace.AppleStaleFire | src/app/page.tsx:40-53 | Apple's original timer firing after the manual return only removes the timer |

## Left out

- The `getUsers` HTTP fetch, JSON decoding and error logging (`src/lib/api/user.ts:5-17`, `src/app/users/page.tsx:6-18`) are network I/O. `fetchAndTransform` takes the fetch result as an `Option` parameter instead.
- All JSX: the users page's rendering and the `Column` component with the home page layout. These are presentation only. The one thing kept from them is that a click is possible only on an entry of the rendered list (`MoverTrace.Enabled`).
- The 5000 ms delay of `setTimeout` is not modelled. A scheduled return is a pending event that may fire at any later step, in any order.
- React's `useState` batching, closure capture and re-rendering are not modelled. Functional state updaters are applied one after another as pure transitions.
- `console.log` and `console.error` side effects.
- AgeRange.ParseInt: weaker than JavaScript's `parseInt`. It reads leading decimal digits only, with no leading whitespace, sign, radix prefix or digits beyond what fits a natural. Only strings the age-range step produces itself, or the empty-piece cases, ever reach it, so nothing else is needed.
- AgeRange.NumToString: prints naturals, `NaN` and the infinities only. Fractional or negative ages are not modelled, because ages are `nat` here.
- AgeRange.NatToString: assumes every age is below 1e21 and below 2^53. From 1e21 on, JavaScript prints a number in exponent form, so `${1e21}` is `"1e+21"` and `parseInt` reads that back as 1; the round trip `AgeRange.RangeRoundTrip` fails there. Above 2^53 a JavaScript number no longer holds every integer exactly.
- Fractional and negative ages are not modelled. A negative age would print as `"-5"`, and the `-`-split would then misread the range.
- JavaScript object keys live in a prototype chain. A department, colour or name such as `"constructor"` or `"__proto__"` would behave differently in the source than in a Dafny `map`, and that difference is not modelled.
- Insertion order of the output object's keys is not modelled, because a Dafny `map` is unordered.
- The users page's own `transformData` is proved equal to the library's fold. The two files' texts are not compared.
