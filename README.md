# Strict validation of the language model's reply (moneyfly-backend, `api/voicev3.js`)

The `voicev3` endpoint sends a user's free-text financial statement, with the user's
reference data (assets, credit cards, loans, installment plans, categories), to a language
model and returns the model's proposed actions. Two deterministic steps run on the reply:

- **Reply cleaning** (`api/voicev3.js:161`): every markdown fence "```json" or "```" is
  removed from the raw text, scanning left to right, and surrounding white space is trimmed.
- **Strict validation layer** (`api/voicev3.js:177-209`): one flat set of valid ids is built
  from the asset, card, loan and installment ids, each category's `categoryId` and every
  subcategory's id. The handler then walks `parsed.actions || []` in order. For each action
  it collects its non-empty `sourceAccountId`, `destinationAccountId`, `categoryId`,
  `subcategoryId` and `relatedId`, in that order. The first id not in the set ends the
  request with an error carrying that id. Otherwise, an action whose confidence is 1.0 or
  more has it overwritten with 0.95. When every action passes, the parsed payload is
  returned as mutated.

Modules:

- `Wrappers` (`wrappers.dfy`): `Option` and `Result`.
- `ReplyCleaning` (`reply_cleaning.dfy`): the fence stripping and ECMAScript `trim` as
  functions, with lemmas: no fence survives, cleaning is idempotent, and backtick-free
  text is only trimmed.
- `EntityCatalog` (`entity_catalog.dfy`): the catalog datatypes and the valid-id set,
  built as the source builds it (maps, a flat map, the spread into one set). A lemma
  proves the set is exactly the union of the six sources.
- `Actions` (`actions.dfy`): the action record, the ids an action presents, and the
  specification of the layer as functions. `FirstInvalid` is the nested first-unknown
  search and `ValidateActions` is the whole layer. Lemmas state its properties.
- `StrictValidation` (`strict_validation.dfy`): the loop as the handler runs it. The
  actions sit in an array that the method updates in place. A nested loop searches the
  ids, returns early on the first miss, and clamps the confidence in place. The method is
  proved equal to `ValidateActions`.

Modelling choices:

- Ids are optional strings, and `""` counts as absent, as `.filter(Boolean)` makes it.
- Confidence is a `real`, so the test against 1.0 and the value 0.95 are exact.
- A category's `categoryId` is optional. A missing one puts `undefined` into the set, and
  no checked id can equal that, so here a missing one contributes nothing.
- The set takes each category's `categoryId`, not its `id`, and the loop that checks the
  ids also lowers confidences. A category's `id` field is carried but never consulted
  (`EntityCatalog.CategoryOwnIdIgnored`).

## Model

| member | source | states |
|---|---|---|
| `ReplyCleaning.StripFences` | api/voicev3.js:161 | removing fences never lengthens the reply |
| `ReplyCleaning.StripFencesDropsJsonFence` | api/voicev3.js:161 | for any text: at the first backtick, a "```json" is removed together with its `json` tag, text before it is kept verbatim, and the scan goes on right after it |
| `ReplyCleaning.StripFencesDropsFence` | api/voicev3.js:161 | for any text: at the first backtick, a "```" not followed by `json` is removed alone, text before it is kept verbatim, and what follows is scanned again |
| `ReplyCleaning.StripFencesLeavesNoFence` | api/voicev3.js:161 | after the global replace of "```json" and "```", no three consecutive backticks remain anywhere in the text |
| `ReplyCleaning.StripFencesOfFenceFree` | api/voicev3.js:161 | text that holds no "```" is left unchanged by the replace |
| `ReplyCleaning.StripFencesWithoutBackticks` | api/voicev3.js:161 | a reply without any backtick is left unchanged by the replace |
| `ReplyCleaning.StripFencesKeepsPlainPrefix` | api/voicev3.js:161 | text before the first backtick is kept verbatim, whatever follows it |
| `ReplyCleaning.StripFencesKeepsOtherCharacters` | api/voicev3.js:161 | the replace removes only fence characters: every character outside "```json" occurs as often after it as before |
| `ReplyCleaning.TrimStart` | api/voicev3.js:161 | the result is a suffix of the input that does not start with white space, and everything cut off is white space |
| `ReplyCleaning.TrimEnd` | api/voicev3.js:161 | the result is a prefix of the input that does not end with white space, and everything cut off is white space |
| `ReplyCleaning.Trim` | api/voicev3.js:161 | `trim()` returns a contiguous slice of its input with no white space at either end, and only white space lies outside the slice |
| `ReplyCleaning.TrimIdempotent` | api/voicev3.js:161 | trimming a trimmed string changes nothing |
| `ReplyCleaning.CleanLeavesNoFence` | api/voicev3.js:161 | the cleaned reply holds no "```" |
| `ReplyCleaning.CleanIdempotent` | api/voicev3.js:161 | cleaning an already cleaned reply changes nothing |
| `ReplyCleaning.CleanWithoutBackticks` | api/voicev3.js:161 | a reply containing no backtick is returned merely trimmed |
| `ReplyCleaning.CleanFencedReply` | api/voicev3.js:161 | a reply "```json⏎{}⏎```" is cleaned to "{}" |
| `EntityCatalog.EntityIdsMembership` | api/voicev3.js:178-181 | an id is among the asset (card, loan, installment) ids exactly when some entity of that list has it as its `id` |
| `EntityCatalog.CategoryIdsMembership` | api/voicev3.js:182 | an id comes from the categories exactly when some category's `categoryId` is that id |
| `EntityCatalog.SubcategoryIdsMembership` | api/voicev3.js:183 | an id comes from one category's subcategories exactly when one of them has that `id` |
| `EntityCatalog.AllSubcategoryIdsMembership` | api/voicev3.js:183 | an id comes from the flat map over all categories exactly when some subcategory of some category has that `id` |
| `EntityCatalog.ValidIdsExactly` | api/voicev3.js:177-184 | the valid-id set is exactly the union of asset, card, loan and installment ids, each category's `categoryId` and every subcategory id; nothing else is a member |
| `EntityCatalog.CategoryOwnIdIgnored` | api/voicev3.js:182 | in a catalog holding one category, with no `categoryId` and no subcategories, that category's own `id` is not a valid id: the set never reads a category's `id` |
| `Actions.CheckedIdsExactly` | api/voicev3.js:187-193 | the ids checked for an action are exactly the non-empty values of its five id fields |
| `Actions.EmptyIdIsAbsent` | api/voicev3.js:187-193 | an empty-string id is never checked: it behaves as an absent field |
| `Actions.FirstUnknown` | api/voicev3.js:195-201 | the inner search finds nothing exactly when every id is in the set, and what it finds is an id of the list that is not in the set |
| `Actions.FirstUnknownAt` | api/voicev3.js:195-201 | when every id before position j is known and the one at j is not, the one at j is reported |
| `Actions.FirstUnknownIsFirst` | api/voicev3.js:195-201 | a reported id sits at some position j and every id before j is known |
| `Actions.CheckedIdsSearch` | api/voicev3.js:187-201 | searching an action's collected ids is searching its fields in the order source, destination, category, subcategory, related |
| `Actions.FirstInvalidIsFlat` | api/voicev3.js:186-201 | the nested loop finds the same id as one search over every checked id of every action, in visiting order |
| `Actions.FirstInvalidAppend` | api/voicev3.js:186-201 | over a list split in two, the loop reports the first part's unknown id if there is one, else the second part's |
| `Actions.FirstInvalidNoneIff` | api/voicev3.js:186-202 | the loop reports nothing exactly when every checked id of every action is known |
| `Actions.FirstInvalidIsFirst` | api/voicev3.js:186-201 | a reported id is unknown and is the first unknown one: every id of the earlier actions and every earlier id of its own action is known |
| `Actions.FirstInvalidReplace` | api/voicev3.js:186-201 | replacing one action by another whose own search gives the same answer does not change the loop's result |
| `Actions.ValidateSucceedsIff` | api/voicev3.js:177-209 | validation succeeds exactly when every non-empty id of every action is in the valid-id set |
| `Actions.ValidateEmpty` | api/voicev3.js:186 | an empty action list (and so a missing one, via `\|\| []`) succeeds with nothing checked |
| `Actions.ValidateReportsFirstUnknown` | api/voicev3.js:186-201 | on failure the reported `invalidId` is non-empty, unknown to the catalog, and the first unknown id in action order and then field order |
| `Actions.KnownIdFitsAnySlot` | api/voicev3.js:177-196 | the set is untyped: any known id (say a loan id) in any of the five fields gives the same outcome as an empty field |
| `Actions.ValidateClamps` | api/voicev3.js:204-209 | on success the list keeps its length, order and every field but `confidence`; a confidence of 1.0 or more becomes exactly 0.95, a lower one is kept, and no action is left at 1.0 or more |
| `Actions.ValidateIdempotent` | api/voicev3.js:186-209 | applying the layer to its own successful output gives the same output |
| `StrictValidation.FindUnknown` | api/voicev3.js:195-201 | the inner `for` loop returns the first id of the list that is not in the set, or nothing |
| `StrictValidation.CheckActions` | api/voicev3.js:186-209 | the outer loop over the actions array returns what `ValidateAgainst` specifies; on success the array holds the returned list; every entry either keeps its value or has its confidence clamped |
| `StrictValidation.ValidateInPlace` | api/voicev3.js:177-209 | building the set and running the loop over `parsed.actions \|\| []` returns what `ValidateActions` specifies; on success the array holds the returned list, and nothing but confidences changes |

## Left out

- HTTP plumbing: CORS headers, the OPTIONS and POST checks, status codes, the required
  `message` check and the request-body defaults. This is request and response I/O.
- The API-key lookup in the environment and the prompt text. These are configuration and
  prose.
- The outbound call to the language-model provider and the checks on its response shape.
  This is a network client.
- `JSON.parse` of the cleaned reply. It is a foreign library call, so the model takes the
  parsed action list as its input.
- `api/voice.js`, `api/router.js`, `api/forex.js` and `api/test.js` are not part of this
  model. They only wrap external APIs or run a top-level script.
- JavaScript coercion: non-string ids such as `0` or `false`, and a non-numeric
  confidence compared with `>= 1.0`. Ids are optional strings here and confidence is a
  number.
- The `TypeError` raised when a category has no `subcategories`. That error is caught and
  answered as a crash. Here every category carries a (possibly empty) list.
- The `TypeError` raised by a `null` entry in `parsed.actions`, or by a `null` asset,
  card, loan, installment or category, when its fields are read (api/voicev3.js:178-188).
  The handler catches it and answers "Function crashed" (api/voicev3.js:211-215). Here
  actions and catalog entries are records, so a `null` entry cannot be expressed.
- Aliasing between entries of `parsed.actions`: an action is a value in an array, so one
  object appearing twice in the list is not modelled. Clamping is idempotent, so the
  outcome would be the same.
- StrictValidation.ValidateInPlace: when `parsed.actions` is missing, it returns
  `Success([])`, while the response returns `parsed` without an `actions` field.
- StrictValidation.CheckActions: on failure it states only that each entry is unchanged
  or clamped, not exactly which entries before the failing one were clamped. The error
  response does not include the payload, so those clamps are not visible.
- The error response's status code and message text. The failure carries only the
  offending id.
- Amount sign correction, income and expense direction enforcement, the default-account
  fallback, the credit-card override, threshold filtering, suggestion nulling, flag
  coercion and the 0.5 coercion of a non-numeric confidence. None of these appear in this
  code.
