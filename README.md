# Weekly meal planner — Dafny model

This project models the logic of a small web app that plans a working week
of meals. It has two parts:

- **The planner component** (`MealPlanner`). Its state is a plan of one
  `[lunch, dinner]` row per working day and an edit flag. The component
  - generates a whole plan by drawing each meal at random from a catalogue;
  - replaces a single meal by a new random draw;
  - toggles the edit flag;
  - shows a "generate" prompt while the plan is empty and a table otherwise.
- **The cookie helpers.** `setCookie` builds the text
  `name=value[; expires=E]; path=/` and writes it to `document.cookie`.
  `getCookie` does four steps:
  1. splits the decoded cookie text on `;`;
  2. takes the first piece that *contains* the name;
  3. trims that piece;
  4. removes the first `name=` from it.

  `isCookieTrue` compares that result with `"true"`.

The files:

- `options.dfy`: `Option`, which stands for JavaScript's `undefined`.
- `js_strings.dfy`: the JavaScript string built-ins the helpers rely on. These are `split` with a one-character separator, `includes`, `trim` (the ECMAScript white-space and line-terminator set) and `replace` with a string pattern, which replaces the first occurrence only.
- `cookies.dfy`: the cookie text, its parse, and a `CookieJar` class whose `jar` field is the browser's cookie text.
- `meal_planner.dfy`: the planner as a class. Its fields are `mealPlan` and `isEditing`, and the catalogue `meals` is a constant. The plan is a sequence of row *arrays*. `replaceMeal` copies only the outer list and then writes into the row it shares with the current state. The model keeps that sharing explicit: after a replacement the outer list holds the same row objects. The validity invariant requires that no two days share a row.

The random index of `getRandomMeal` is a nondeterministic choice in
`[0, |meals|)`. `Math.floor(Math.random() * n)` always lands in that range.

The model follows the code. Some descriptions of this app mention a rotation
pool of meals, with refilling and with the plan persisted in a cookie. The
component's code has none of that: every draw is from the whole catalogue,
and the plan lives only in component state. So the model has none of it
either.

## Model

| member | source | states |
|---|---|---|
| MealPlanning.RandomMeal | src/components/MealPlanner.tsx:25-28 | on a non-empty list the index is in `[0, length)` and the result is the element there; on an empty list the result is `undefined` (None) |
| MealPlanning.MealPlanner.constructor | src/components/MealPlanner.tsx:21-22 | the plan starts empty and editing is off, so the generate prompt is shown |
| MealPlanning.MealPlanner.GenerateMealPlan | src/components/MealPlanner.tsx:30-37 | the new plan has one fresh row per week day (5), each row has 2 meals, every meal is from the catalogue, the old plan does not enter, the edit flag is unchanged and the table is shown; the plan is the one selected by the week's drawn lunch and dinner indices |
| MealPlanning.MealPlanner.ReplaceMeal | src/components/MealPlanner.tsx:39-43 | the outer list keeps the same row objects; the plan equals the old plan with only slot `(dayIndex, mealIndex)` changed, to a catalogue meal; validity is kept |
| MealPlanning.MealPlanner.ToggleEditing | src/components/MealPlanner.tsx:45-47 | the edit flag is negated and nothing else changes |
| MealPlanning.WithMeal | src/components/MealPlanner.tsx:40-41 | setting one slot keeps the shape, puts the meal in that slot and keeps every other slot |
| MealPlanning.WithMealKeepsWeekPlan | src/components/MealPlanner.tsx:41 | replacing one slot by a catalogue meal keeps a full plan of catalogue meals |
| MealPlanning.PlansAreDraws | src/components/MealPlanner.tsx:31-35 | the draws are independent: every week of drawn indices gives a full plan of catalogue meals, and every full plan of catalogue meals is the one some week of draws gives |
| MealPlanning.SameMealEverywhereIsWeekPlan | src/components/MealPlanner.tsx:31-35 | the draws are independent: a plan with the same meal in every slot (lunch equal to dinner, repeats across days) is a valid plan |
| MealPlanning.Render | src/components/MealPlanner.tsx:62-118 | the prompt is shown exactly when the plan is empty; otherwise there is one row per week day, in order, showing that day's two meals, and the edit state is shown |
| MealPlanning.EnabledButtons | src/components/MealPlanner.tsx:62-118 | which buttons the view offers (`Enabled`): "generate" always; the edit/save toggle if and only if a plan exists; a replace button on `(d, m)` if and only if editing a full plan with `d < 5` and `m < 2` |
| MealPlanning.EnabledReplaceInRange | src/components/MealPlanner.tsx:96-118 | a replace button exists only while editing a full plan, with day index below 5 and meal index below 2 |
| MealPlanning.MealPlanner.Dispatch | src/components/MealPlanner.tsx:62-118 | any button the current view offers keeps the state valid, and once the table is shown the plan never becomes empty again; "generate" gives a full catalogue plan and keeps the edit flag; the toggle keeps the plan and negates the flag; a replace button changes only its own slot, to a catalogue meal, and keeps the edit flag |
| MealPlanning.Session | src/components/MealPlanner.tsx:21-47 | a new planner shows the prompt; after generating, a full plan is shown; toggling editing twice restores the flag |
| Cookies.FormatValue | src/lib/cookies.ts:10 | a boolean is written as "true" or "false" according to its value; a string is written unchanged |
| Cookies.HasExpiry | src/lib/cookies.ts:13 | `!!expDays`: an expiry is set if and only if the day count is present and not 0 |
| Cookies.CookieText | src/lib/cookies.ts:18-20 | the written text starts with `name=` and ends with `; path=/` |
| Cookies.CookieTextExpiry | src/lib/cookies.ts:13-20 | the text is exactly `name=value; path=/` if and only if `expDays` is absent or 0; otherwise it is `name=value; expires=E; path=/` |
| Cookies.CookieTextSegments | src/lib/cookies.ts:18-20 | split on `;`, the written text is the pair, then ` expires=E` exactly when an expiry is set, then ` path=/` |
| Cookies.FindContaining | src/lib/cookies.ts:27 | `find` with `includes`: undefined exactly when no piece contains the name; otherwise the first such piece |
| Cookies.ParseCookie | src/lib/cookies.ts:26-28 | the parse is undefined if and only if no `;`-piece of the decoded text contains the name |
| Cookies.ParseCookieAt | src/lib/cookies.ts:26-28 | otherwise the value is the first containing piece, trimmed, with its first `name=` removed |
| Cookies.ParseCookieWithoutPair | src/lib/cookies.ts:28 | if the trimmed piece has no `name=`, it is returned trimmed and otherwise unchanged |
| Cookies.ParsePairAt | src/lib/cookies.ts:26-28 | if the first containing piece trims to `name=v`, the value is `v` |
| Cookies.ParseTrimmedFirstPiece | src/lib/cookies.ts:26-28 | if the first piece contains the name and trims to `name=v`, the value is `v` |
| Cookies.ParseFirstPair | src/lib/cookies.ts:26-28 | if the first piece is `name=v`, the value is `v` |
| Cookies.ParseCookieOfPairs | src/lib/cookies.ts:26-28 | for a `;`-joined list of pieces, if the first piece containing the name is `name=v` (after leading blanks), the value is `v` |
| Cookies.ParseCookieText | src/lib/cookies.ts:18-20 | round trip: when the store holds only the text `setCookie` wrote, and that text has no `%` (so decoding leaves it unchanged), parsing it gives back the formatted value |
| Cookies.ParseFlagIsTrue | src/lib/cookies.ts:35-38 | when the store holds only a written boolean cookie without `%`, it reads back as "true" if and only if the boolean is true |
| Cookies.TrimPair | src/lib/cookies.ts:28 | `trim` leaves a `name=v` pair alone when it neither starts nor ends with white space |
| Cookies.TrimPaddedPair | src/lib/cookies.ts:28 | `trim` removes the blank that follows each `;` before a pair |
| Cookies.PaddedPairIncludesName | src/lib/cookies.ts:27 | a pair after white space contains the name |
| Cookies.PrefixedPairIncludesName | src/lib/cookies.ts:27 | a pair whose key ends in the name contains the name |
| Cookies.RemoveFirstPair | src/lib/cookies.ts:28 | `replace` removes the first `name=`, which lies after a prefix with no `=` |
| Cookies.ParseCookieSubstringQuirk | src/lib/cookies.ts:27-28 | substring matching: if a key ending in the name comes first (`username=bob` for `name`), its value comes back with the key's prefix (`userbob`) |
| Cookies.CookieJar.constructor | src/lib/cookies.ts:17 | the jar starts with the given text, in or outside a browser |
| Cookies.CookieJar.SetCookie | src/lib/cookies.ts:1-22 | in a browser the jar becomes the cookie text; outside one nothing is written |
| Cookies.CookieJar.GetCookie | src/lib/cookies.ts:24-33 | undefined outside a browser; otherwise the parse of the jar |
| Cookies.CookieJar.IsCookieTrue | src/lib/cookies.ts:35-38 | true if and only if `getCookie` gives exactly "true"; never true outside a browser |
| Cookies.SetFlagThenCheck | src/lib/cookies.ts:1-38 | writing a boolean cookie without `%` into a store that then holds only it, and asking `isCookieTrue`, gives back the boolean |
| JsStrings.IndexOfChar | src/lib/cookies.ts:26 | the first index of the separator, or none if it does not occur |
| JsStrings.Split | src/lib/cookies.ts:26 | `split` gives at least one piece, and no piece contains the separator |
| JsStrings.SplitFirst | src/lib/cookies.ts:26 | a separator-free first piece is split off at the first separator |
| JsStrings.JoinSplit | src/lib/cookies.ts:26 | joining the pieces of a split gives back the text |
| JsStrings.SplitJoin | src/lib/cookies.ts:26 | splitting a joined list of separator-free pieces gives back the pieces |
| JsStrings.Includes | src/lib/cookies.ts:27 | `includes`: a pattern is only found if it fits in the text, and the empty pattern is always found |
| JsStrings.IncludesOccurs | src/lib/cookies.ts:27 | `includes` holds if and only if the pattern occurs at some position |
| JsStrings.IndexOf | src/lib/cookies.ts:27-28 | the first position where the pattern occurs, or none exactly when it occurs nowhere |
| JsStrings.TrimStart | src/lib/cookies.ts:28 | a suffix of the input that does not start with white space |
| JsStrings.TrimEnd | src/lib/cookies.ts:28 | a prefix of the input that does not end with white space |
| JsStrings.Trim | src/lib/cookies.ts:28 | the result neither starts nor ends with white space |
| JsStrings.TrimBlank | src/lib/cookies.ts:28 | `trim` gives the empty text if and only if the text is all white space |
| JsStrings.TrimStartPadded | src/lib/cookies.ts:28 | `trimStart` removes exactly a white-space prefix |
| JsStrings.TrimEndPadded | src/lib/cookies.ts:28 | `trimEnd` removes exactly a white-space suffix |
| JsStrings.TrimIsCore | src/lib/cookies.ts:28 | `trim` removes exactly the white space around a non-empty core |
| JsStrings.RemoveFirst | src/lib/cookies.ts:28 | `replace` with a string pattern: the text is unchanged when the pattern occurs nowhere; otherwise only its first occurrence is cut out |

## Left out

- `downloadImage` (src/components/MealPlanner.tsx:49-58) is not modelled. It is asynchronous browser I/O: html2canvas, `toDataURL` and a link click.
- The markup, styling, button and table components are reduced to `Render` and `Enabled`, which keep only which view is shown, its rows, the edit state and which buttons exist. `src/app/page.tsx` is layout only and is not part of this model.
- `Math.random` and `Math.floor` are floating point. They are replaced by a nondeterministic index in `[0, |meals|)`, so the model says nothing about uniformity.
- The catalogue contents (`@/data/mealData`) are not part of this model. The planner takes any non-empty list of meal names.
- MealPlanning.MealPlanner.constructor: requires a non-empty catalogue. With an empty one the code would fill every slot with `undefined`, which this model does not represent.
- The `Date` arithmetic and `toUTCString` of `setCookie` (src/lib/cookies.ts:12-16) are not modelled. The expiry text `E` is a parameter. `expDays` is an optional integer, truthy exactly when present and non-zero; NaN and fractional day counts are not modelled.
- `decodeURIComponent` (src/lib/cookies.ts:26) is not modelled, and neither is the `URIError` it can throw on a malformed `%` escape. `getCookie` parses the stored text as if it were already decoded. Decoding leaves text without `%` unchanged, so the round-trip lemmas require (`Unescaped`) that the name, the value and the expiry text have no `%`. With a `%` the program can read back something else (`a%41` is decoded to `aA`) or throw.
- The browser's cookie store is reduced to the text last written. A real `document.cookie` keeps one entry per name, drops the attributes (`expires`, `path`) when read back, and joins entries with `; `. Cookies.ParseCookieOfPairs states the parse of such a read-back text directly.
- Cookies.ParseCookieText: requires that the name and the value contain no `;`, that the name does not start with white space, that the value does not end with it, and that none of name, value and expiry text has a `%`. A `;` in the name or the value, or white space at the end of the value, makes `split` or `trim` cut the value. A `%` is rewritten by decoding, or makes it throw. A `;` or white space in the expiry text is harmless, because the first piece stays `name=value`. ParseFlagIsTrue and SetFlagThenCheck carry the same conditions.
- Cookies.ParseCookieText, Cookies.ParseFlagIsTrue, Cookies.SetFlagThenCheck: hold for a store that holds only the written cookie. With other cookies in the store, an earlier piece whose key ends in the name is read instead (Cookies.ParseCookieSubstringQuirk).
- The rotation pool, refilling and persisting the plan in a cookie are absent from the component's code (every draw at src/components/MealPlanner.tsx:32-33 and :41 uses the whole catalogue), so they are not modelled.
