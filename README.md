# Inventory manager for 3D-printing filament: a Dafny model

`app.js` is a single-page inventory of filament products. A form creates
and edits products and validates what was typed. A table lists the products
with their availability. Modal dialogs buy from stock and restock. The list
and the id counter are kept in `localStorage`. This project models the core
of that file and proves properties of it:

- the form validation (`validateForm`), with the helpers it relies on:
  - `normalizeDecimal`, with JavaScript's `String.prototype.trim` and the
    `Number(string)` grammar;
  - `toNonNegativeInteger`, with `parseInt(s, 10)` and `Math.trunc`;
  - the two-decimal rounding `Number(x.toFixed(2))`;
- the store operations, which change the product list and the counter in
  place:
  - `createProduct`, `updateProduct`, `deleteProduct`, `purchaseProduct`
    and `restockProduct`;
  - the image rules of the submit handler, for editing and for creating;
  - the next-id recovery of `hydrate`, and what `persist` writes;
- `escapeHtml`, the availability rule `quantity > 0`, and what each table row
  shows.

Layout, one module per file:

| file | module | contents |
|---|---|---|
| `wrappers.dfy` | `Wrappers` | `Option` |
| `js_strings.dfy` | `JsStrings` | whitespace, `trim`, `parseInt` (radix 10), `String(n)`, first-occurrence `replace`, `join` |
| `js_numbers.dfy` | `JsNumbers` | JavaScript values and the number conversions |
| `validation.dfy` | `Validation` | `validateForm` and its messages |
| `catalog.dfy` | `Catalog` | products, each store operation as a function of the list, the invariant, `hydrate`/`persist` |
| `store.dfy` | `Inventory` | class `Store`: the list and counter, updated in place by methods proved against `Catalog` |
| `render.dfy` | `Render` | `escapeHtml`, its per-character reference and inverse, the rows of the table |

How numbers are modelled:

- A JavaScript number is an exact `real`. `NaN` and `±Infinity` both become
  `None`, because every caller only asks `Number.isFinite`.
- A value of unknown type is a `JsValue`: a string, a number or `NaN`.

Where the code behaves differently from what its user interface suggests, the
model follows the code:

- A required field is checked on the raw text (`!fields.name`), but stored
  trimmed. A name of only spaces passes and is saved empty
  (`Validation.BlankNameAccepted`).
- A quantity is read with `parseInt`. So `"3.7"` is accepted as 3, and
  `"10abc"` as 10 (`Validation.FractionalQuantityTruncated` for the
  first, `JsNumbers.ToNonNegativeIntegerOfDigits` for both).
- A purchase of a product whose stock is 0 reports "unavailable", never
  "insufficient stock", for any positive whole amount. An amount of 0 or one
  that is not a number is reported as a bad amount first (app.js:201-203,
  `Catalog.PurchaseRefusals`).
- Stored text that `JSON.parse` rejects aborts the whole of `hydrate`:
  neither the list nor the counter changes. A stored value that is not an
  array keeps the list but still recovers the counter.
- A stored counter that does not parse to a positive integer is ignored, and
  the current counter stays. It is not recomputed from the list. Only a
  missing or empty counter is recomputed.

## Model

| member | source | states |
|---|---|---|
| JsStrings.TrimStart | app.js:53 | the result is a suffix of the input, only whitespace was dropped, and it does not start with whitespace |
| JsStrings.TrimEnd | app.js:53 | the result is a prefix of the input, only whitespace was dropped, and it does not end with whitespace |
| JsStrings.Trim | app.js:53 | `trim()` leaves no whitespace at either end; the result is empty exactly when the text is all whitespace |
| JsStrings.TrimIsMiddle | app.js:53 | `trim()` returns the middle of the text: the slice after the leading whitespace, with only whitespace after it |
| JsStrings.TrimUnchanged | app.js:53 | text without whitespace at either end is its own trim |
| JsStrings.LeadingDigits | app.js:63 | the longest prefix of decimal digits, which `parseInt` reads |
| JsStrings.DecimalRadixDigits | app.js:63 | the radix-10 digits of `parseInt` are exactly the characters 0-9 |
| JsStrings.ParseInt | app.js:63 | `parseInt(s, 10)` is `NaN` exactly when no digit follows the leading whitespace and one optional sign |
| JsStrings.ShowNat | app.js:448 | `String(n)` for a whole number: nonempty, all digits, no leading zero |
| JsStrings.ValueOfShowNat | app.js:448 | the digits of `String(n)` have the value n |
| JsStrings.ParseIntShowNat | app.js:463 | `parseInt` reads `String(n)` back as n, whatever non-digit text follows |
| JsStrings.ParseIntNegative | app.js:63 | `parseInt` reads a minus sign followed by `String(n)` as -n |
| JsStrings.ParseIntDigits | app.js:63 | `parseInt` of whitespace, at most one sign, digits (leading zeros allowed) and non-digit text is the signed value of the digits |
| JsStrings.ParseIntSigned | app.js:63 | the same without leading whitespace: no sign or `+` gives the value, `-` its negation |
| JsStrings.ParseIntSkips | app.js:63 | leading whitespace does not change what `parseInt` reads |
| JsStrings.IndexOf | app.js:57 | the first position of a character, or the length when it is absent |
| JsStrings.ReplaceFirst | app.js:57 | `replace(',', '.')` with a string pattern changes the first comma only and nothing else |
| JsStrings.ReplaceFirstAfter | app.js:57 | with no comma before it, the first comma is the one replaced |
| JsStrings.Join | app.js:107 | `join` of a single label is that label |
| JsNumbers.Trunc | app.js:63 | `Math.trunc` rounds toward zero, for either sign |
| JsNumbers.ToNonNegativeInteger | app.js:62-66 | `NaN` for `NaN` input, for a string `parseInt` rejects, and for any negative result; otherwise the result is `parseInt`'s value for a string and `Math.trunc` for a number, which is accepted exactly when it is above -1 |
| JsNumbers.ToNonNegativeIntegerOfText | app.js:62-66 | for any string of whitespace, optional sign, digits and non-digit text: the digits' value, except that a minus before a non-zero value is rejected |
| JsNumbers.ParsedToNonNegative | app.js:63-65 | text `parseInt` reads as n is accepted exactly when n is not negative, as n |
| JsNumbers.ToNonNegativeIntegerOfDigits | app.js:62-66 | a digit string, possibly followed by non-digits, is read as its value |
| JsNumbers.ToNonNegativeIntegerRejectsNegative | app.js:64 | a negative digit string is refused |
| JsNumbers.ToNonNegativeIntegerOfWhole | app.js:62-66 | a whole number is kept when not negative and refused otherwise |
| JsNumbers.StringToNumber | app.js:58 | `Number` of blank text is 0 |
| JsNumbers.NormalizeDecimal | app.js:51-60 | blank text is `NaN` |
| JsNumbers.DotNumber | app.js:58 | `Number` reads digits, a point and digits as that decimal |
| JsNumbers.IntegerNormalizes | app.js:51-60 | a run of digits normalises to its whole value |
| JsNumbers.NegativeNormalizes | app.js:51-60 | a minus before digits negates the value |
| JsNumbers.NonNumericRejected | app.js:51-60 | trimmed text starting with anything but a digit, a separator or a sign is `NaN` |
| JsNumbers.CommaOrDot | app.js:51-60 | "49,90" and "49.90" both give the decimal 49.9: comma and point are equivalent separators |
| JsNumbers.ToFixed2 | app.js:116-118 | rounding to two decimals keeps a non-negative value non-negative |
| JsNumbers.ToFixed2Rounds | app.js:116-118 | below 1e21 the result is a whole number of cents within half a cent of the input |
| JsNumbers.ToFixed2Idempotent | app.js:116-118 | rounding an already rounded value changes nothing |
| Validation.MissingLabels | app.js:86-91 | a label is listed exactly when its field is empty, only required labels appear, in form order |
| Validation.MissingOf | app.js:86-91 | the pushes add only labels of the list |
| Validation.MissingOfExact | app.js:86-91 | for labels in form order, a label is pushed exactly when its text is empty |
| Validation.MissingOfOrdered | app.js:86-91 | the pushed labels keep the order of the checks |
| Validation.MissingOfNone | app.js:86-91 | nothing is pushed exactly when no text is empty |
| Validation.NoneMissing | app.js:86-91 | no label is missing exactly when all five required fields are nonempty |
| Validation.ValidateForm | app.js:85-122 | the weight, then the price, then the quantity, then the required fields are checked, each failure exactly when the earlier checks passed; accepted data has non-negative weight and price rounded to cents and the parsed quantity |
| Validation.Accepts | app.js:85-122 | a form passing every check is accepted |
| Validation.Message | app.js:98-107 | every error message is a sentence ending with a full stop |
| Validation.MessagesDiffer | app.js:98-107 | the weight, price and quantity errors have three different messages; one missing field is named in its message |
| Validation.NegativeWeightRejected | app.js:97-99 | a weight such as "-5" is rejected as an invalid weight |
| Validation.NonNumericWeightRejected | app.js:97-99 | a weight such as "abc" is rejected as an invalid weight |
| Validation.BlankNameAccepted | app.js:87-113 | a name of only whitespace passes the required check and is stored empty |
| Validation.FractionalQuantityTruncated | app.js:95-119 | a quantity such as "3.7" is accepted, truncated to 3 |
| Validation.ExampleWeight | app.js:93-116 | "200,5" g is stored as 200.5 |
| Validation.ExamplePrice | app.js:94-118 | "49,90" is stored as 49.9 |
| Validation.ExampleQuantity | app.js:95-119 | "10" is stored as 10 |
| Catalog.NewProduct | app.js:178 | the new product carries the given id, the form data and the image |
| Catalog.ImageChangeFor | app.js:299-303 | "remove image" clears, else a newly read image replaces, else the image is kept |
| Catalog.NewImageFor | app.js:306-308 | a new product gets an image exactly when a non-empty data URL was read, and then that one |
| Catalog.Merge | app.js:186 | the spread keeps the id, takes every form field from the edit and applies the image change |
| Catalog.FindIndex | app.js:184 | -1 exactly when no product has the id, otherwise the first position holding it |
| Catalog.FindIndexSameIds | app.js:198 | changing stock figures does not change where an id is found |
| Catalog.Create | app.js:177-181 | the product is appended with the counter's value and the counter moves on by one |
| Catalog.CreateFreshId | app.js:178 | the new id is above every id in use and so is unused; valid data keeps the invariant |
| Catalog.Update | app.js:183-188 | fails exactly when the id is absent; otherwise only the found product changes, to its merge with the edit |
| Catalog.UpdateKeepsInvariant | app.js:183-188 | an update with valid data keeps ids, counter and stock consistent |
| Catalog.Delete | app.js:190-195 | fails exactly when the id is absent; otherwise the found product is spliced out and the rest keep their order |
| Catalog.DeleteRemovesOne | app.js:193 | exactly one product, the one found, leaves the list |
| Catalog.DeleteKeepsInvariant | app.js:190-195 | deletion keeps the invariant and no product with the id remains |
| Catalog.PurchaseMessage | app.js:199-208 | every refusal of a purchase has a message |
| Catalog.RestockMessage | app.js:216-219 | every refusal of a restock has a message |
| Catalog.MessagesDistinguish | app.js:199-219 | each purchase refusal has its own message; the two bad-amount messages differ and the not-found messages agree |
| Catalog.WithQuantity | app.js:210-221 | only the stock figure of the one product changes |
| Catalog.Purchase | app.js:197-212 | succeeds exactly when the product exists, the amount is a positive whole number, the stock is positive and covers the amount; the stock then drops by the amount and stays non-negative |
| Catalog.PurchaseRefusals | app.js:197-209 | the reason for a refusal, each exactly in its case, in the order not found, bad amount, unavailable, insufficient |
| Catalog.Restock | app.js:214-223 | succeeds exactly when the product exists and the amount is a positive whole number; the stock then grows by the amount; a missing product is reported before a bad amount |
| Catalog.StockKeepsInvariant | app.js:197-223 | purchases and restocks keep the invariant, so stock never goes negative |
| Catalog.RestockThenPurchase | app.js:197-223 | restocking an amount and buying the same amount gives back the original list |
| Catalog.ExamplePurchases | app.js:207-210 | with 10 in stock, buying 15 is refused as insufficient and buying 10 leaves 0 |
| Catalog.MaxId | app.js:467 | the `reduce` gives 0 for an empty list, otherwise at least every id and equal to one of them |
| Catalog.RecoveredNextId | app.js:462-469 | a stored counter parsing to a positive integer is taken, any other stored counter is ignored, and without one the counter is the largest loaded id plus one, above every loaded id |
| Catalog.Hydrated | app.js:452-471 | unparsable text changes nothing; a stored array replaces the list; anything else keeps it; in every case but the first the counter is recovered from the list as it now is |
| Catalog.Persisted | app.js:446-448 | `persist` writes the list and a counter text that `parseInt` reads back as the counter |
| Catalog.ReloadRestores | app.js:444-471 | loading what `persist` wrote gives back the same list and counter, whatever the state before |
| Catalog.RecoveredIdIsFresh | app.js:465-468 | a recomputed counter is above every loaded id, and 1 for an empty list |
| Inventory.Store.constructor | app.js:2-3 | the store starts empty with the counter at 1, satisfying the invariant |
| Inventory.Store.Find | app.js:184 | the loop finds the same position as `FindIndex` |
| Inventory.Store.LargestId | app.js:467 | the loop computes `MaxId` of the list |
| Inventory.Store.CreateProduct | app.js:177-181 | the new state is that of `Create`; when the store was valid, the id was unused and valid data keeps the invariant |
| Inventory.Store.UpdateProduct | app.js:183-188 | the answer says whether the id was present; the new list is that of `Update`; the counter is untouched |
| Inventory.Store.DeleteProduct | app.js:190-195 | the answer says whether the id was present; the new list is that of `Delete`; the counter is untouched; when the store was valid, it stays valid and the id is gone afterwards |
| Inventory.Store.PurchaseProduct | app.js:197-212 | the reply and new list are those of `Purchase` on the amount as `toNonNegativeInteger` reads it |
| Inventory.Store.Buy | app.js:198-211 | the steps after the conversion give the reply and list of `Purchase`, and keep the invariant |
| Inventory.Store.RestockProduct | app.js:214-223 | the reply and new list are those of `Restock` on the amount as `toNonNegativeInteger` reads it |
| Inventory.Store.Refill | app.js:215-222 | the steps after the conversion give the reply and list of `Restock`, and keep the invariant |
| Inventory.Store.Persist | app.js:444-450 | what is written is the list and `String(nextProductId)` |
| Inventory.Store.Hydrate | app.js:452-471 | the new list and counter are those of `Hydrated` |
| Render.EscapeHtml | app.js:266-273 | the five passes, `&` first, escape each character exactly once; decoding the entities gives the text back; no `<`, `>`, `"` or `'` remains |
| Render.ReplaceAll | app.js:266-273 | `replaceAll` leaves text without the character alone, and removes it when the replacement lacks it |
| Render.ReplaceAllAppend | app.js:266-273 | replacing in a concatenation replaces in each part |
| Render.EscapeChar | app.js:268-272 | the special characters get an entity starting with `&`, every other character stays itself |
| Render.EscapeAll | app.js:266-273 | escaping never shortens the text |
| Render.EscapeOne | app.js:266-273 | the five passes on one character give its entity |
| Render.PassesArePerChar | app.js:266-273 | the five passes in order equal escaping each character once; nothing is escaped twice |
| Render.EntityNoMarkup | app.js:268-272 | no entity contains `<`, `>`, `"` or `'` |
| Render.EscapeAllNoMarkup | app.js:266-273 | per-character escaping leaves no `<`, `>`, `"` or `'` |
| Render.SafeTextUnchanged | app.js:266-273 | text without the five characters is unchanged |
| Render.UnescapeChar | app.js:266-273 | each entity decodes to its character, whatever follows |
| Render.UnescapeEscapeAll | app.js:266-273 | decoding undoes per-character escaping |
| Render.AvailableIffBuyable | app.js:235 | a listed product is shown available exactly when buying one unit of it would succeed |
| Render.RenderRow | app.js:234-264 | the buy button is enabled and the status reads available exactly when the stock is positive; name, type, colours and dimensions are their `escapeHtml`; id, weight, price and stock are the product's; a thumbnail appears exactly for a non-empty image, with the image as source and the escaped name as alt text |
| Render.RenderProducts | app.js:225-232 | the placeholder exactly for an empty list, otherwise one row per product in order |
| Render.PurchaseShownInTable | app.js:234-240 | after a purchase the product's row offers "buy" exactly when the amount was below the stock; other rows are as before |
| Render.RestockEnablesBuy | app.js:234-240 | after a restock the product's row offers "buy" |

## Left out

- The DOM, the event listeners, the modals and the HTML markup of a row are
  left out. A row is the record of the values it shows.
- The submit handler's glue is left out, beyond the image rule
  (`Catalog.ImageChangeFor` when editing, `Catalog.NewImageFor` when
  creating). `Inventory.Store.CreateProduct` stores the image it is given;
  the handler passes it `NewImageFor` of the data URL read.
- `localStorage` and JSON are parameters. `Catalog.StoredList` stands for
  what `JSON.parse` made of the stored text.
- The exceptions that `persist` swallows are left out.
- Reading an image file (`fileToDataUrl`) is left out. It is asynchronous
  browser I/O, so the data URL is a parameter.
- IEEE doubles are left out, because numbers are exact reals. This drops:
  - precision loss and overflow to `Infinity`;
  - `parseInt` above 2^53;
  - the binary representation behind `toFixed`.
- The currency formatting of the price cell and `String(weight)` in the
  weight cell are left out. They are locale and number-printing code, so the
  row keeps the numbers.
- The buy and restock totals in the modals are left out. They are display
  only.
- The non-string branch of `normalizeDecimal` (app.js:52) is left out.
  `validateForm` always passes form strings.
- Hexadecimal, octal and binary literals inside `Number()` are modelled. No
  property is stated about them.
- JsNumbers.ToNonNegativeInteger: `NaN`, `Infinity` and `-Infinity` are one
  `NaN` value, because every caller only tests `Number.isFinite`.
- JsNumbers.ToFixed2: its own contract only states that the sign is kept.
  Its rounding (cents, within half a cent, below 1e21) is stated by
  `ToFixed2Rounds`.
- JsNumbers.StringToNumber: its own contract only covers blank text. Its
  decimal reading is stated by `DotNumber` and `CommaOrDot`.
- JsStrings.Join: only the one-label case is stated. Its use is the message
  text, not a decision.
- Catalog.PurchaseMessage and Catalog.RestockMessage: the exact wording is
  in the bodies. Their contracts only state that a message is not empty.
  `Catalog.MessagesDistinguish` states that the messages differ.
- Validation.Message: the exact wording is in the body. Its contract only
  states the final full stop; `Validation.MessagesDiffer` states that the
  messages differ.
- Inventory.Store.Hydrate: it does not promise the invariant. A stored
  counter that is out of date or not a number is kept or ignored without
  checking it against the loaded ids.
- A product read back from storage may hold a fractional or non-numeric
  quantity. The model types quantities as whole numbers.
- A product read back from storage may also lack an id or hold one that is
  not a number. `hydrate` then counts it as 0 (`p.id || 0`, app.js:467). The
  model types ids as integers, so `Catalog.MaxId` does not cover that case.
- Catalog.ReloadRestores: it takes for granted that the `JSON.stringify`/`JSON.parse`
  round trip gives back the same list. `Catalog.StoredList` stands for the
  parsed value, so that step is not modelled.
