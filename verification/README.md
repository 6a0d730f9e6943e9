# Telenome market-creation page, modelled in Dafny

The page `CreateMarketPage` lets a user create a categorical prediction
market. Submitting it:

1. checks four text fields (template, subject, description, outcomes) against a schema;
2. requires a connected wallet;
3. splits the outcomes field on commas, trims each piece and drops the empty pieces;
4. stops if fewer than two outcomes remain;
5. builds the 14-field `CreateMarketParams` record of the market factory's
   `createCategoricalMarket` function;
6. hands that record to the contract-write hook exactly once;
7. reports success (and resets the form) or the reason for a failure.

The Dafny project models this flow with these modules:

- `Wrappers`: `Option` and `Result`.
- `JsString`: the JavaScript string operations the page uses, written out on
  `seq<char>`. These are `split` on a character, `trim`, `substring`, and
  `toString` on integers. Each comes with its defining properties:
  - split/join round trips;
  - trim removes exactly the surrounding whitespace;
  - decimal text reads back as the number it was written from.
- `MarketForm`: the form values, the schema `Validate`, and the outcome
  parser `ParseOutcomes` with its properties (order kept, duplicates kept,
  blank pieces dropped, every outcome clean).
- `MarketParams`: the record, the function `BuildParams` that fills it, and
  `BuildRequest`, which decides whether any record is built. The clock is a
  parameter.
- `CreateMarketPage`: a class `Page` holding the draft, the `submitting` flag
  and the log of writes sent to the collaborator. `OnSubmit` is the submit
  handler. `HandleSubmit` runs the schema check before it. The connected
  wallet, the clock reading and how the write settles are inputs of each
  attempt.

## Model

| member | source | states |
|---|---|---|
| MarketForm.Validate | packages/nextjs/app/telenome/create/page.tsx:30-35 | the form passes exactly when all four fields are non-empty, and it passes unchanged; on failure exactly the empty fields are reported, each once, with the schema's message for that field |
| MarketForm.MissingFieldsReported | packages/nextjs/app/telenome/create/page.tsx:30-35 | checking a list of fields reports a field exactly when it is in the list and empty |
| MarketForm.MissingFieldsMessages | packages/nextjs/app/telenome/create/page.tsx:31-34 | every reported error carries the message the schema gives its field |
| MarketForm.MissingFieldsDistinct | packages/nextjs/app/telenome/create/page.tsx:30-35 | a field is never reported twice |
| MarketForm.NoMissingFields | packages/nextjs/app/telenome/create/page.tsx:30-35 | no error is reported exactly when every field is non-empty |
| MarketForm.SchemaCoversEveryField | packages/nextjs/app/telenome/create/page.tsx:30-35 | the schema checks every field of the form |
| MarketForm.TrimEach | packages/nextjs/app/telenome/create/page.tsx:90 | `map(s => s.trim())`: same length, each piece trimmed in place |
| MarketForm.DropEmpty | packages/nextjs/app/telenome/create/page.tsx:91 | `filter(s => s.length > 0)`: no longer than its input, and keeps only non-empty members of it |
| MarketForm.DropEmptyMembers | packages/nextjs/app/telenome/create/page.tsx:91 | a string survives the filter exactly when it is non-empty and in the input |
| MarketForm.DropEmptyAppend | packages/nextjs/app/telenome/create/page.tsx:91 | the filter keeps order: filtering a concatenation concatenates the filtered parts |
| MarketForm.TrimEachMembers | packages/nextjs/app/telenome/create/page.tsx:90 | the trimmed list holds exactly the trims of the pieces |
| MarketForm.ParseOutcomes | packages/nextjs/app/telenome/create/page.tsx:88-91 | the split/trim/filter chain: no more outcomes than comma-separated pieces, none of them empty; `ParseOutcomesAreClean`, `ParseOutcomesMembers` and `ParseOutcomesByPieces` state the rest |
| MarketForm.ParseOutcomesByPieces | packages/nextjs/app/telenome/create/page.tsx:88-91 | the whole parse: the outcomes are the trimmed non-blank texts of the comma-separated pieces, piece by piece in order |
| MarketForm.ParseOutcomesAreClean | packages/nextjs/app/telenome/create/page.tsx:88-91 | every parsed outcome is non-empty, has no whitespace at either end and no comma; there are no more outcomes than pieces |
| MarketForm.ParseOutcomesMembers | packages/nextjs/app/telenome/create/page.tsx:88-91 | a string is an outcome exactly when it is non-empty and some comma-separated piece trims to it |
| MarketForm.ParseOneOutcome | packages/nextjs/app/telenome/create/page.tsx:88-91 | a comma-free piece yields its trimmed text, or nothing when that is empty |
| MarketForm.ParseOutcomesAppend | packages/nextjs/app/telenome/create/page.tsx:88-91 | the outcomes of `a,b` are those of `a` followed by those of `b`, so order is kept and nothing is deduplicated |
| MarketForm.ParseOutcomesOfJoin | packages/nextjs/app/telenome/create/page.tsx:88-91 | the outcomes of comma-joined pieces are the pieces' trimmed non-blank texts, piece by piece in order |
| MarketForm.ParseCleanPiece | packages/nextjs/app/telenome/create/page.tsx:88-91 | a clean outcome on its own parses as itself |
| MarketForm.ParseBlankPiece | packages/nextjs/app/telenome/create/page.tsx:88-91 | an all-whitespace field yields no outcome |
| MarketForm.ParseDropsBlankPieces | packages/nextjs/app/telenome/create/page.tsx:88-91 | empty and whitespace-only pieces are dropped and the rest keep their order: `a,,b, ,c` gives `[a, b, c]` |
| MarketForm.ParseTrimsPieces | packages/nextjs/app/telenome/create/page.tsx:90 | whitespace after a comma is trimmed: `a, b` gives `[a, b]` |
| MarketForm.ParseKeepsDuplicates | packages/nextjs/app/telenome/create/page.tsx:88-91 | repeated outcomes are kept: `a,a` gives `[a, a]` |
| MarketForm.ParseExampleWithBlanks | packages/nextjs/app/telenome/create/page.tsx:88-91 | "A,,B, ,C" gives ["A", "B", "C"] |
| MarketForm.ParseExampleYesNo | packages/nextjs/app/telenome/create/page.tsx:88-91 | "Yes, No" gives ["Yes", "No"] |
| MarketForm.ParseExampleOnlyOne | packages/nextjs/app/telenome/create/page.tsx:88-91 | "OnlyOne" gives a single outcome |
| JsString.Split | packages/nextjs/app/telenome/create/page.tsx:89 | `split(",")` yields at least one piece and no piece contains the separator |
| JsString.JoinSplit | packages/nextjs/app/telenome/create/page.tsx:89 | joining the pieces with the separator gives the input back |
| JsString.SplitJoin | packages/nextjs/app/telenome/create/page.tsx:89 | splitting a join of separator-free pieces gives the pieces back |
| JsString.SplitNoSeparator | packages/nextjs/app/telenome/create/page.tsx:89 | a string without the separator is one piece |
| JsString.SplitAppend | packages/nextjs/app/telenome/create/page.tsx:89 | the pieces of `a + sep + b` are those of `a` followed by those of `b` |
| JsString.TrimStart | packages/nextjs/app/telenome/create/page.tsx:90 | the leading-whitespace pass of `trim()` never lengthens its input; `TrimStartSpec` states what it removes |
| JsString.TrimEnd | packages/nextjs/app/telenome/create/page.tsx:90 | the trailing-whitespace pass of `trim()` never lengthens its input; `TrimEndSpec` states what it removes |
| JsString.Trim | packages/nextjs/app/telenome/create/page.tsx:90 | `trim()` never lengthens its input; `TrimDecompose`, `TrimIsTrimmed`, `TrimBlank` and `TrimExact` state what it keeps and removes |
| JsString.TrimStartSpec | packages/nextjs/app/telenome/create/page.tsx:90 | the leading-whitespace pass removes a whitespace prefix and leaves a string that does not start with whitespace |
| JsString.TrimEndSpec | packages/nextjs/app/telenome/create/page.tsx:90 | the trailing-whitespace pass removes a whitespace suffix and leaves a string that does not end with whitespace |
| JsString.TrimDecompose | packages/nextjs/app/telenome/create/page.tsx:90 | the input is whitespace, then the trimmed string, then whitespace |
| JsString.TrimIsTrimmed | packages/nextjs/app/telenome/create/page.tsx:90 | the result of `trim` neither starts nor ends with whitespace |
| JsString.TrimBlank | packages/nextjs/app/telenome/create/page.tsx:90-91 | `trim` gives "" exactly when the input is all whitespace, which is why blank pieces are dropped |
| JsString.TrimStartOfWhitespacePrefix | packages/nextjs/app/telenome/create/page.tsx:90 | leading whitespace before a non-whitespace start is exactly what the leading pass removes |
| JsString.TrimEndOfWhitespaceSuffix | packages/nextjs/app/telenome/create/page.tsx:90 | trailing whitespace after a non-whitespace end is exactly what the trailing pass removes |
| JsString.TrimExact | packages/nextjs/app/telenome/create/page.tsx:90 | any whitespace around a trimmed string is removed and nothing else |
| JsString.TrimOfTrimmed | packages/nextjs/app/telenome/create/page.tsx:90 | `trim` is idempotent on trimmed strings |
| JsString.Substring | packages/nextjs/app/telenome/create/page.tsx:112 | `substring(start, end)` is the slice between the smaller and the larger index, each clamped to the string, and never longer than the string |
| JsString.SubstringPrefix | packages/nextjs/app/telenome/create/page.tsx:112 | `substring(0, n)` is the first `min(n, length)` characters |
| JsString.NatToDecimal | packages/nextjs/app/telenome/create/page.tsx:101-102 | `toString` of a natural number gives at least one digit and no leading zero |
| JsString.DecimalRoundTrip | packages/nextjs/app/telenome/create/page.tsx:101-102 | the decimal text of a natural number denotes that number |
| JsString.IntToDecimal | packages/nextjs/app/telenome/create/page.tsx:101-102 | `toString` of an integer is canonical integer text (optional minus, no leading zero, no `-0`) that reads back as the same integer |
| MarketParams.EpochSeconds | packages/nextjs/app/telenome/create/page.tsx:101 | `Math.floor(Date.now() / 1000)` is the whole seconds of the reading: `secs * 1000 <= now < secs * 1000 + 1000` |
| MarketParams.TokenName | packages/nextjs/app/telenome/create/page.tsx:112 | a token name is the outcome's prefix of length `min(|o|, 32)` |
| MarketParams.TokenNames | packages/nextjs/app/telenome/create/page.tsx:112 | one token name per outcome, in order |
| MarketParams.TokenNameFits | packages/nextjs/app/telenome/create/page.tsx:112 | an outcome of at most 32 characters is its own token name; a longer one is cut to its first 32 |
| MarketParams.ShortTokenNamesUnchanged | packages/nextjs/app/telenome/create/page.tsx:112 | when every outcome fits in 32 characters, the token names equal the outcomes |
| MarketParams.BuildParamsMeaning | packages/nextjs/app/telenome/create/page.tsx:98-113 | every one of the 14 fields: the subject and outcomes as given; `openingTime` the clock's whole seconds; `questionStart`/`questionEnd` the decimal text of that and of 604800 seconds later; tokenNames the 32-character prefixes; all other fields the fixed constants (categorical, 0, zero address, "Default Category", "en", 0, 0, 10^17) |
| MarketParams.BuildParams | packages/nextjs/app/telenome/create/page.tsx:98-113 | the record names the subject, holds the outcomes as given and one token name per outcome; `BuildParamsMeaning` states every other field |
| MarketParams.BuildRequest | packages/nextjs/app/telenome/create/page.tsx:88-113 | no record exactly when fewer than two outcomes parse; otherwise the record is `BuildParams` of the subject, the parsed outcomes and the clock, so it names the subject and holds the parsed outcomes, all clean |
| MarketParams.RequestIgnoresTemplateAndDescription | packages/nextjs/app/telenome/create/page.tsx:98-113 | the template and the description do not affect the request |
| MarketParams.RequestRejectsSingleOutcome | packages/nextjs/app/telenome/create/page.tsx:92-95 | "OnlyOne" builds no record |
| MarketParams.ShortOutcomesAreTokenNames | packages/nextjs/app/telenome/create/page.tsx:112 | with two or more outcomes, each of at most 32 characters, the token names are the outcomes |
| MarketParams.RequestForYesNo | packages/nextjs/app/telenome/create/page.tsx:88-113 | "Yes, No" builds a record whose outcomes and token names are ["Yes", "No"] |
| CreateMarketPage.SubmitOutcome.Notice | packages/nextjs/app/telenome/create/page.tsx:81-143 | the notification for each outcome: "Please connect your wallet." for no wallet (line 81), "Please provide at least two outcomes." (line 93), the success text of line 139, and for a failure "Error creating market: " followed by its reason (line 143); only a schema failure shows none, its messages appearing beside the fields instead |
| CreateMarketPage.ErrorReason | packages/nextjs/app/telenome/create/page.tsx:143 | the failure reason is never empty: `shortMessage` if present and non-empty, else `message` if so, else "Unknown error" |
| CreateMarketPage.Page.constructor | packages/nextjs/app/telenome/create/page.tsx:60-76 | the form starts with four empty fields, `submitting` false, and nothing sent |
| CreateMarketPage.Page.Edit | packages/nextjs/app/telenome/create/page.tsx:160-194 | typing into a field sets that field only; a driver standing for the registered inputs, whose markup is otherwise left out |
| CreateMarketPage.Page.Reset | packages/nextjs/app/telenome/create/page.tsx:140 | `reset()` puts every field back to its empty default and touches nothing else |
| CreateMarketPage.Page.OnSubmit | packages/nextjs/app/telenome/create/page.tsx:79-148 | no wallet: the outcome is the wallet error and nothing changes; too few outcomes: nothing is sent and the draft is kept; otherwise exactly one `createCategoricalMarket` write is sent, with the built record as its only argument; success resets the form; failure reports `ErrorReason` and keeps the draft; past the wallet check `submitting` ends false |
| CreateMarketPage.Page.HandleSubmit | packages/nextjs/app/telenome/create/page.tsx:155 | `handleSubmit(onSubmit)` with the schema resolver of line 70: values failing the schema are reported with the schema's errors and nothing changes or is sent; values passing it give exactly `OnSubmit`'s outcome (no wallet, too few outcomes, submitted, or failed with `ErrorReason`), the one write when a record is built and none otherwise, the flag down after the wallet check and untouched before it, and a reset only on success |

## Left out

- The React rendering, the placeholder components and the button disabled while `isSubmitting || isPending` (page.tsx:13-27, 151-211): these are UI. The `isPending` flag of the write hook is not modelled.
- The hook libraries (`useAccount`, `useForm`/`zodResolver`, `useScaffoldWriteContract`) are foreign code. The wallet is an `Option<string>` input. The write is an abstract `WriteResult` input, and every write sent is logged in `sentWrites`. The ABI encoding of the record is not modelled.
- Toasts and console logging are observational. The texts of the notifications are kept in `SubmitOutcome.Notice`; the loading toast and the console output are not.
- `Date.now()` is read three times in the source (lines 101, 102 and 111). The model reads one clock value `nowMillis` for all three. Readings that straddle a second boundary could base the three time fields (`questionStart`, `questionEnd`, `openingTime`) on different seconds; that is not modelled.
- `Math.floor` works on a floating-point quotient. The model uses exact integer division, which equals floor for a positive divisor. `Number.prototype.toString` is modelled for integers in plain decimal; the exponent form JavaScript uses from 10^21 upward is not modelled.
- Strings are sequences of Unicode code points. JavaScript's `length`, `substring` and `trim` work on UTF-16 code units, so an outcome holding characters outside the Basic Multilingual Plane is cut at a different place than in the model.
- JavaScript truthiness of the error object: `shortMessage` and `message` are either absent or strings. Other falsy or non-string values are not modelled.
- The `submitting` flag is true while the write is in flight. `OnSubmit` is one atomic step with no intermediate state visible to a caller, so only the flag's final value is stated. Edits the user makes to the form while the write is pending (the inputs stay enabled) are not modelled: on failure the page would keep such edits and on success `reset()` would discard them, whereas the model keeps or resets the draft as it was when the attempt began.
- Building the record twice from the same inputs gives the same record because `BuildParams` and `BuildRequest` are functions; no separate lemma states it.
- No uint32 range check on `openingTime` and no check of the template against the select's options: the page enforces neither, so neither is modelled.
- packages/nextjs/contracts/seerContracts.ts (a static address and ABI table) and src/main.py (logging and environment set-up) are not part of this model.
