# Voice ordering and point of sale: a Dafny model

The system has two browser programs.

- `voice-app.js` listens to a customer and gets the order back from a speech model. The model's reply arrives as text fragments, and a fenced ```` ```json ```` block in that reply holds the order.
- `cashier.js` is the point-of-sale screen (`POSCashier`). It receives the items, keeps the current sale's lines, takes the tendered amount digit by digit on a keypad, and completes sales.

This project models the logic in both programs that turns text into order items and keeps the cart:

- **Text** (`text.dfy`): the string primitives the source relies on. These are `trim`, `toLowerCase` (ASCII letters), `split('\n')`, `split(/\s+/)`, `replace(/\s+/g, ' ')` and `includes`.
- **Numbers** (`numbers.dfy`): `parseFloat` and `parseInt` on the inputs the code gives them. Values are exact reals and unbounded integers.
- **Menu** (`menu.dfy`): `extractMenuFromPrompt`. The line regex `^-?\s*([^-:$]+?)[\s\-:]*(?:RM|rm|\$)?(\d+\.?\d*)` is a hand-written matcher that is faithful to the regex's backtracking. The skip rules and the object keyed by lower-cased name are written as an ordered list of distinct keys.
- **Orders** (`orders.dfy`): `parseOrderFromText` and the two paths it routes to. One is `parseStructuredResponse`, for lines `- name, qty, RMprice each`. The other is the free-text matcher, which takes quantity words in Malay and English and does keyword substring matching against the menu.
- **JsonBlock** (`jsonblock.dfy`): the pure middle of `processCompleteOrder`. It selects the last ```` ```json ```` block, runs the four regex repairs, and normalises each parsed item. `JSON.parse` is a function parameter.
- **Transcript** (`transcript.dfy`): the transcript in the voice app, as a class (`appendTranscription`, `clearTranscription`, and the sending half of `processCompleteOrder`). The state of the cashier's socket is a parameter.
- **SaleLines / Cashier** (`cashier.dfy`): the cart functions and the `POSCashier` class. The class has the fields `items`, `paidAmount`, `salesHistory`, `totalSales` and `totalOrders`. A counter `nextId` stands in for `Date.now() + Math.random()`. The save request in `completeSale` is a success/failure parameter.

Money is `real`, so nothing rounds. `paidAmount` is an integer of whole currency units, as the code computes it: the keys 1, 5, 0, 0 give 1500.

## Model

| member | source | states |
|---|---|---|
| Numbers.ParseFloatOfGroup | voice-app.js:136 | `parseFloat` of a captured `\d+\.?\d*` group is that group's exact decimal value, so the captured price is never NaN |
| Numbers.DecimalGroupEndMaximal | voice-app.js:133 | the greedy `\d+\.?\d*` cannot be extended: no digit follows it, and a dot follows only a group that already has its dot |
| Numbers.DecimalGroupEndUnique | voice-app.js:133 | a decimal group that cannot be extended ends exactly where the greedy one does, so the greedy group is the only such group |
| Numbers.ParseFloat | cashier.js:492 | `parseFloat` fails (NaN) exactly when no digit, and no `.` followed by a digit, comes after the leading whitespace and an optional sign |
| Numbers.ParseIntOfDigits | voice-app.js:228 | `parseInt` of a non-empty digit string is its decimal value |
| Numbers.DigitsValue | voice-app.js:192 | the value of a digit string is 0 exactly when every digit is `0`; this is the case in which `parseInt(q) \|\| 1` falls back to 1 |
| Numbers.OrOne | cashier.js:493 | `x \|\| 1` on a parsed integer is never 0; it keeps every non-zero parsed value and is exactly 1 when the parse gave `NaN` or 0 |
| Menu.PriceStart | voice-app.js:133 | `(?:RM\|rm\|\$)?\d` matches after the separators exactly when the predicate holds; the digit position found is after the marker `""`, `$`, `RM` or `rm` |
| Menu.PriceAfterSeparators | voice-app.js:133 | after a name that ends at `e`, the greedy separator run followed by a price succeeds exactly when some separator run followed by a price can, so taking the greedy run as final loses no match |
| Menu.LazyNameEndShortest | voice-app.js:133 | the lazy name group `([^-:$]+?)` ends at the first position after which the rest of the line regex can match, and only name characters precede it |
| Menu.LazyNameEndFails | voice-app.js:133 | when the lazy search fails, no longer run of name characters lets the rest of the regex match |
| Menu.BacktrackingSpaceSound | voice-app.js:133 | when the regex backtracks over fewer of the leading `\s*`, the name group still starts after whitespace only and the match is valid |
| Menu.MatchMenuLine | voice-app.js:133 | a line match is anchored: only an optional `-` and whitespace come before the name group, the name, separator and price groups satisfy the regex, and the price group is the greedy `\d+\.?\d*`: no digit follows it, and a dot follows only a group that already has its dot |
| Menu.MatchMenuLinePriceGreedy | voice-app.js:133 | the price group of a line match ends exactly where the greedy digits, dot and digits from its first digit end |
| Menu.MatchAtStartNone | voice-app.js:133 | a name tried at one start fails only when no name of name characters from that start can be followed by separators, a currency marker and a digit |
| Menu.BacktrackingSpaceNone | voice-app.js:133 | the backtracking over `\s*` fails only when the name fails at every start it tries |
| Menu.MatchMenuLineComplete | voice-app.js:133 | a line fails to match only when, for every start after `-?\s*` and every non-empty run of name characters from there, the rest of the regex cannot follow |
| Menu.BacktrackingSpaceFirst | voice-app.js:133 | when backtracking over the leading `\s*` finds a name, no start with more leading whitespace admits one, so the greediest successful start is taken |
| Menu.MatchMenuLineLongest | voice-app.js:133 | a line match takes the longest `-?\s*` lead-in that admits a name: no later start after such a lead-in has a run of name characters that can end the name |
| Menu.LineEntryWellFormed | voice-app.js:135-153 | an accepted line yields an entry keyed by its lower-cased name, with a positive price and the lower-cased whitespace-split words of the name as keywords; no entry's name contains `Example`, `#`, `*`, `Subtotal` or `Total`, or is shorter than 2, and no key is `__proto__` |
| Menu.LineEntryOfMatch | voice-app.js:135-153 | a line the regex does not match adds nothing; for a matched line `parseFloat` of the (greedy) price group is its decimal value, and the line is accepted exactly when the trimmed name group passes the skip rules, is not `__proto__` in lower case and that price is positive; the entry then holds the trimmed name group, that price and the lower-cased words of the name, under the lower-cased name |
| Menu.MenuLineRoundTrip | voice-app.js:133-153 | rendering `- name: RMdigits` for a name the skip rules accept and a positive price reads back the entry keyed by the lower-cased name, with that name, the decimal value of the digits and the lower-cased words |
| Menu.MatchRenderedMenuLine | voice-app.js:133 | on a rendered line `- name: RMdigits` the regex takes the name group exactly as written, the `: ` separators and the `RM` marker, and the digits to the end of the line |
| Menu.ExampleShortPriceInvalid | voice-app.js:133 | in `ab 1.5` a price group that stops at `1`, before the dot, is not a match of the pattern |
| Menu.MenuLineExampleMatch | voice-app.js:133 | `ab 1.5` matches with the name group `ab` and the whole `1.5` as the price group |
| Menu.MenuLineExample | voice-app.js:133-153 | the line `ab 1.5` yields the entry `ab` with the price 1.5 and the keyword `ab` |
| Menu.LineEntry | voice-app.js:135-153 | an accepted line's key is the lower-cased name of its entry and never `__proto__`, its price is positive, and its name passes the skip rules |
| Menu.Lookup | voice-app.js:149 | looking a key up in the object finds nothing exactly when the key is absent; otherwise it returns the entry stored under that key |
| Menu.PutLookup | voice-app.js:149-153 | after assigning `menuItems[key]`, that key reads the new entry and every other key reads what it read before |
| Menu.PutKeys | voice-app.js:149 | assignment to a new key appends it to the key order, and assignment to an existing key keeps the order |
| Menu.FillLookupLast | voice-app.js:129-156 | the entry stored under a key comes from the last line that yields that key, so a later line with the same lower-cased name overwrites an earlier one |
| Menu.FillLookupAbsent | voice-app.js:129-156 | a key is missing from the menu exactly when no line yields it |
| Menu.FillKeyOrder | voice-app.js:129-156 | the menu's keys are the keys the lines yield, in first-occurrence order, the order `Object.keys` reports |
| Menu.MenuOf | voice-app.js:124-160 | the menu of a prompt has distinct keys and every entry is well formed |
| Menu.MenuOfFacts | voice-app.js:124-160 | the menu built from a prompt has distinct keys, each entry is well formed, and the keys come in first-occurrence order |
| Menu.ExtractMenuFromPrompt | voice-app.js:124-160 | the loop over `prompt.split('\n')` builds exactly the menu of the prompt, with distinct keys, well-formed entries and keys in first-occurrence order |
| Orders.MatchItemLine | voice-app.js:225-229 | a match of `^-\s*([^,]+),\s*(\d+),\s*RM(\d+\.?\d*)\s*each` has a non-empty name without commas, a non-empty digit quantity and a decimal price group, within the text |
| Orders.ItemBoundsUnique | voice-app.js:225 | the positions of the groups are determined by the line, so the matcher finds the only way the regex can match |
| Orders.MatchItemLineShape | voice-app.js:221 | every match is anchored at a line start and its text is `-`, spaces, the name, `,`, spaces, the quantity, `,`, spaces, `RM`, the price, spaces, `each` |
| Orders.ScanItemLines | voice-app.js:221 | the global scan returns no more matches than the text has characters (every match is non-empty); `ScanItemLineStarts` says which matches it returns |
| Orders.ScanItemLineStarts | voice-app.js:221 | the global multiline scan returns, in text order and without overlap, the match at every line start where the pattern matches and that no earlier match covers, each spanning from its line start to just after `each`, and nothing else |
| Orders.ItemAtRematch | voice-app.js:221-225 | the text of a match found at a line start matches again without `g` with the same groups |
| Orders.OrdersOfRematches | voice-app.js:224-236 | matched texts that all match again give one order each, in order, from their own groups |
| Orders.ItemOrder | voice-app.js:227-229 | a structured line's order has a trimmed name, a non-negative price, and a quantity that is 0 exactly when the quantity digits are all `0` |
| Orders.OrdersOfMatches | voice-app.js:224-239 | the `forEach` gives at most one order per matched text |
| Orders.RematchCount | voice-app.js:224-239 | when every matched text matches again without `g`, each gives exactly one order |
| Orders.StructuredOrders | voice-app.js:216-244 | `parseStructuredResponse` gives exactly one order per text the global scan returns |
| Orders.StructuredOrdersAt | voice-app.js:216-244 | `parseStructuredResponse` gives one order per line start where the pattern matches and no earlier match covers, in text order, each built from the groups of the match at that line start; prose lines around the items add nothing |
| Orders.RematchPrefix | voice-app.js:221-225 | matching the matched text itself again with the non-global regex gives the same groups, so the `if (parts)` check always succeeds |
| Orders.ScannedLinesRematch | voice-app.js:221-226 | every text that the global multiline scan returns matches the non-global regex again |
| Orders.ParseStructuredResponse | voice-app.js:216-244 | the loop returns the orders of the line matches in text order, exactly one per text the global scan returns (the inner `if (parts)` never drops one); no match gives no order |
| Orders.StructuredRoundTrip | voice-app.js:221-239 | rendering well-formed item lines as `- name, qty, RMprice each`, joined by line feeds, and parsing them back gives exactly the intended orders, in order |
| Orders.WordToNum | voice-app.js:187-191 | the number-word table maps exactly its ten English and five Malay words, each to the value written beside it in the table (1 to 10), and no other string |
| Orders.RunTokens | voice-app.js:185 | every run the scan keeps satisfies the test it scans for |
| Orders.QuantityTokens | voice-app.js:185 | every token the `\b(...\|\d+)\b` scan returns is a number word or a run of digits |
| Orders.RunTokenStarts | voice-app.js:185 | the kept runs are the maximal runs of word characters at strictly increasing `\b` run starts, and a run start is among them exactly when its run passes the test |
| Orders.QuantityTokenStarts | voice-app.js:185 | the quantity tokens are, in text order, exactly the maximal word-character runs that start at a `\b` and are a number word or all digits |
| Orders.Quantities | voice-app.js:185-193 | there is one quantity per token, in token order, each the token's value and at least 1 |
| Orders.QuantityValue | voice-app.js:192 | a number word maps through the table, digits map to their value or to 1 when that is 0, and the result is never 0 |
| Orders.QuantityAt | voice-app.js:207 | `quantities[k] \|\| 1` is the k-th quantity when there is one and it is non-zero, and 1 past the end |
| Orders.MatchMenuItems | voice-app.js:196-211 | the loop over the menu keys emits exactly the free-text orders: one per mentioned entry, in key order, paired with the next quantity |
| Orders.FreeTextOrdersSnoc | voice-app.js:197-210 | one more menu entry adds one order exactly when some keyword of it occurs in the text, and the new order takes the quantity at the count of earlier matches |
| Orders.MentionedIndices | voice-app.js:197-203 | the mentioned entries are the menu entries at strictly increasing positions, and an entry is among them exactly when one of its keywords is a substring of the lower-cased text |
| Orders.FreeTextOrders | voice-app.js:196-211 | at most one order per menu entry, one per mentioned entry, with its name and price, and a quantity that is never 0 and is the k-th spoken one when that is non-zero |
| Orders.FreeTextOrdersSound | voice-app.js:173-211 | free-text orders are at most one per menu entry, in menu order, for exactly the mentioned entries; the k-th order has that entry's name and price and the k-th quantity, or 1 when the quantities run out |
| Orders.OrdersFromText | voice-app.js:162-214 | a text containing both `RM` and `each` gives exactly the structured parse; otherwise there are at most as many orders as menu entries, and none for an empty menu |
| Orders.ParseOrderFromText | voice-app.js:162-214 | the method returns the orders of the text for the menu in the prompt text |
| JsonBlock.FenceFrom | voice-app.js:58 | the search for the closing fence finds the first ```` ``` ```` at or after the start, or reports that there is none |
| JsonBlock.BlockAt | voice-app.js:58 | one match of the block pattern at `p` ends past `p` and inside the text (its content is stated by `BlockAtSound`) |
| JsonBlock.BlockAtSound | voice-app.js:58 | a block starts at `p` exactly when ```` ```json ```` is there and a fence follows; the block ends at the first such fence and its content is the trimmed text between them |
| JsonBlock.Blocks | voice-app.js:58 | `matchAll` from a position finds no more blocks than characters remain |
| JsonBlock.NoBlocks | voice-app.js:58-59 | `matchAll` finds no blocks exactly when no position starts one |
| JsonBlock.Candidate | voice-app.js:55-64 | the text handed to the repairs is the group of the last block the scan finds, or the whole transcript when it finds none; the `includes` test in front of the scan changes nothing |
| JsonBlock.BlocksMarker | voice-app.js:56-59 | a transcript in which the scan finds a block contains the ```` ```json ```` marker |
| JsonBlock.CandidateIsLastBlock | voice-app.js:55-64 | when there are blocks, the candidate is the content of the last block, after which no further block starts |
| JsonBlock.CandidateWithoutMarker | voice-app.js:55-56 | without ```` ```json ```` the candidate is the whole transcript |
| JsonBlock.ReplyCandidate | voice-app.js:55-64 | a reply of plain text followed by one block gives that block's body as the candidate |
| JsonBlock.RepairAt | voice-app.js:68-71 | a repair match is a non-empty stretch that the repair replaces by something strictly shorter |
| JsonBlock.RepairAtSqueeze | voice-app.js:68-71 | each repair only deletes whitespace and commas: its replacement equals the matched text with those removed |
| JsonBlock.ReplaceAll | voice-app.js:68-71 | a global `replace` with a repair never lengthens the text and deletes only whitespace and commas |
| JsonBlock.ReplaceAllFacts | voice-app.js:68-71 | a global `replace` never lengthens the text and keeps every character other than whitespace and commas, and it leaves the text unchanged exactly when its pattern matches nowhere |
| JsonBlock.ReplaceFromUnchanged | voice-app.js:68-71 | a replacement pass keeps the length, and equally keeps the text, exactly when no match starts at or after its start |
| JsonBlock.Cleanup | voice-app.js:67-71 | the four-step cleanup never lengthens the text and deletes only whitespace and commas |
| JsonBlock.CleanupFacts | voice-app.js:67-71 | the four-step cleanup never lengthens the text, keeps every other character in order, and is the identity exactly when no repair applies |
| JsonBlock.RepairExamples | voice-app.js:68-71 | `2 .50` becomes `2.50`, `}, ]` becomes `}]` and `, }` becomes `}` |
| JsonBlock.Property | voice-app.js:82-86 | a property read throws on `null`, is defined exactly on objects that have the key, and is `undefined` otherwise |
| JsonBlock.NormalizeName | voice-app.js:84 | a normalised name has no leading or trailing whitespace and no two spaces in a row, keeps the name's other characters in order, and has the same words as the trimmed name, so a single space stays wherever whitespace separated two words |
| Text.CollapseSpaceSplit | voice-app.js:84 | replacing every whitespace run by one space keeps the whitespace-split words of the text |
| Text.TrimCollapse | voice-app.js:84 | trimming after collapsing whitespace runs gives the same text as collapsing after trimming |
| JsonBlock.NormalizeNameIdempotent | voice-app.js:84 | normalising a normalised name changes nothing |
| JsonBlock.ItemPrice | voice-app.js:86 | an item's price is `base_price` when that is truthy, and `price` otherwise (`undefined` when absent); a value that is not an object has neither |
| JsonBlock.NormalizeItem | voice-app.js:83-87 | an item can be mapped exactly when it is an object with a string `name`; then its name is normalised, its quantity passed through and its price chosen as above |
| JsonBlock.MapAllSound | voice-app.js:83 | `map` succeeds exactly when every element can be mapped, and then it maps each element in order |
| JsonBlock.Decode | voice-app.js:77-94 | a failed `JSON.parse` of the cleaned candidate abandons the order; otherwise the decoded order is that of the parsed value |
| JsonBlock.DecodeArray | voice-app.js:82-87 | an object whose `items` is an array decodes to the mapped items, and is unusable when mapping an element throws |
| JsonBlock.DecodeItems | voice-app.js:82-87 | an order whose items all have string names decodes to one normalised item per element, in order |
| JsonBlock.DecodeBadItem | voice-app.js:83-84 | one item without a string name makes the mapping throw, and the order is abandoned |
| JsonBlock.DecodeOrder | voice-app.js:81-87 | a `null` order throws and abandons the order; an object without a truthy `items` decodes to no item list, so there is nothing to send; decoded items come only from an object whose `items` is an array |
| JsonBlock.DecodedNamesCanonical | voice-app.js:84 | every decoded item's name is trimmed and single-spaced, and has the words of the trimmed source name |
| Transcript.PlaceholderShown | voice-app.js:416 | the placeholder markup contains the placeholder text, which is also the element's text |
| Transcript.IsComplete | voice-app.js:429 | the completion test needs a backtick and a closing brace in the text |
| Transcript.PlaceholderNotComplete | voice-app.js:429 | the placeholder never passes the completion test |
| Transcript.ReplyComplete | voice-app.js:429 | a transcript ending in a ```` ```json ```` block whose body ends in `}` passes the completion test |
| Transcript.Appended | voice-app.js:412-420 | a blank fragment leaves the markup as it is; otherwise the markup ends with the trimmed fragment |
| Transcript.AppendAllSpoken | voice-app.js:412-420 | starting from the placeholder, a run of fragments leaves the non-blank trimmed fragments joined by single spaces, or still the placeholder when all were blank |
| Transcript.Process | voice-app.js:96-118 | items are sent exactly when the socket is open and the transcript decodes to a list of items, and they are those items; a failed parse abandons the order; a closed socket never sends |
| Transcript.VoiceSession.constructor | voice-app.js:17-18 | a new session has an empty transcription and has sent nothing; it shows the placeholder markup, which the page's HTML provides |
| Transcript.VoiceSession.ClearTranscription | voice-app.js:557-559 | the placeholder markup comes back and nothing else changes |
| Transcript.VoiceSession.SendItems | voice-app.js:98-109 | one `ADD_ITEM` message per item is sent, in order |
| Transcript.VoiceSession.ProcessCompleteOrder | voice-app.js:46-121 | the outcome is that of the transcript; when the items are sent, the sent messages grow by exactly those items and the session starts over (placeholder markup, empty transcription); on any other outcome nothing changes |
| Transcript.VoiceSession.AppendTranscription | voice-app.js:411-435 | a blank fragment changes nothing; otherwise the markup gets the fragment and the transcription becomes its text; an order is processed exactly when that text passes the completion test |
| SaleLines.FindByName | cashier.js:240 | `find` by name returns the first line with that name, or reports that there is none |
| SaleLines.FindById | cashier.js:267 | `find` by id returns the first line with that id, or reports that there is none |
| SaleLines.WithItem | cashier.js:239-251 | the line with the name gains the quantity and keeps its id and price, or a new line with the fresh id is appended; every line with another name is unchanged |
| SaleLines.WithItemLines | cashier.js:239-251 | when a line with the name exists, only that line's quantity grows; otherwise exactly one new line is appended |
| SaleLines.AddTwice | cashier.js:239-251 | adding the same name twice equals adding it once with the summed quantity, so one line holds the sum |
| SaleLines.WithItemWellFormed | cashier.js:239-251 | adding keeps names distinct and ids distinct, and all ids stay below the next fresh id |
| SaleLines.TotalWithItem | cashier.js:239-251 | adding raises the total by the existing line's price times the quantity added, or by the new line's amount |
| SaleLines.WithoutId | cashier.js:257 | a filter result is never longer than its input |
| SaleLines.WithoutIdOmits | cashier.js:257 | no remaining line has the removed id |
| SaleLines.WithoutIdAbsent | cashier.js:257 | removing an id that no line has changes nothing |
| SaleLines.WithoutIdAt | cashier.js:256-258 | with distinct ids, removal deletes exactly the one matching line and keeps the others in order |
| SaleLines.WithoutIdSublist | cashier.js:257 | every remaining line was a line before |
| SaleLines.WithoutIdWellFormed | cashier.js:256-258 | removal keeps names distinct and ids distinct and bounded |
| SaleLines.WithQuantityAt | cashier.js:267-269 | setting a quantity changes only the matching line, and the total changes by that line's difference in amount |
| SaleLines.WithQuantity | cashier.js:267-269 | the number of lines stays, the first line with the id gets the new quantity, and every line with another id is unchanged |
| SaleLines.WithQuantityAbsent | cashier.js:267-268 | an unknown id changes nothing |
| SaleLines.Total | cashier.js:291-293 | the `reduce` total of no lines is its initial 0 |
| SaleLines.TotalNonNegative | cashier.js:291-293 | lines with no negative price or quantity never total less than 0 |
| SaleLines.TotalConcat | cashier.js:291-293 | the `reduce` total is additive over concatenated lines |
| SaleLines.TotalLines | cashier.js:291-293 | each line contributes its amount once, whatever its position: the total is the lines before it, plus its amount, plus the lines after it |
| SaleLines.TotalUpdate | cashier.js:291-293 | replacing one line changes the total by the difference in that line's amount |
| SaleLines.Change | cashier.js:295-297 | change is `max(0, paid - total)`: never negative, at least the tendered amount minus the total, and equal to 0 or to that difference |
| SaleLines.SaleChange | cashier.js:350 | the change `completeSale` computes equals the change `getChange` reports |
| SaleLines.Tendered | cashier.js:281-284 | keying digits never lowers a non-negative amount, and keying none leaves it |
| SaleLines.TenderedValue | cashier.js:281-284 | after keying digits from `paid`, the amount is `paid` shifted by the number of digits, plus the digits' decimal value |
| SaleLines.TenderedExample | cashier.js:281-284 | the keys 1, 5, 0, 0 from zero give 1500 |
| SaleLines.CustomQuantity | cashier.js:493 | an empty or zero quantity field counts as 1, and the field `3` counts as 3 |
| Cashier.POSCashier.constructor | cashier.js:2-7 | a new cashier has no lines, no sales, zero totals and nothing tendered |
| Cashier.POSCashier.AddItem | cashier.js:239-254 | the lines become those of the merge-by-name add; nothing else changes except the fresh-id counter; the invariant (distinct names, distinct ids) is kept |
| Cashier.POSCashier.RemoveItem | cashier.js:256-259 | the lines become those without the id; nothing else changes |
| Cashier.POSCashier.UpdateQuantity | cashier.js:261-272 | a quantity at most 0 removes the line as `removeItem` does; otherwise only that line's quantity is set; nothing else changes |
| Cashier.POSCashier.ClearAll | cashier.js:274-278 | the lines are emptied and the tendered amount is 0; sales and totals are kept |
| Cashier.POSCashier.AddToPayment | cashier.js:281-284 | the tendered amount becomes ten times itself plus the digit; nothing else changes |
| Cashier.POSCashier.ClearPayment | cashier.js:286-289 | only the tendered amount is set to 0 |
| Cashier.POSCashier.GetTotal | cashier.js:291-293 | the total of an empty sale is 0, and each line's amount is counted once on top of the lines before and after it |
| Cashier.POSCashier.GetChange | cashier.js:295-297 | the change is never negative; it is the tendered amount less the total when that is positive, and 0 otherwise |
| Cashier.POSCashier.CompleteSale | cashier.js:300-368 | an empty sale, an insufficient payment or a failed save changes nothing; a completed sale puts a record of the lines and total first in the history, adds the total to the sales and 1 to the orders, reports the change, and clears the lines and the tendered amount |
| Cashier.POSCashier.AddCustomItem | cashier.js:490-502 | the form is accepted exactly when the trimmed name is non-empty and the price parses to a positive number; then the item is added with its quantity or 1; otherwise nothing changes |

## Left out

- Strings are sequences of Unicode scalar values. JavaScript strings are UTF-16, so lengths (`itemName.length < 2`) differ for characters outside the Basic Multilingual Plane.
- `toLowerCase` is modelled on ASCII letters only. Other letters keep their case. `\s` and `trim` use the ECMAScript whitespace set, and `\b` uses ASCII word characters.
- `innerHTML` and `textContent`: the model takes spoken fragments to hold no markup or character entities. Only the placeholder's `<em>` markup is stripped.
- `JSON.parse` is a function parameter. A real JSON parser is not part of this model. A parsed value is an object, an array, a string, a number, a boolean or `null`; numbers and booleans only matter for truthiness (`if (jsonOrder.items)` and `item.base_price \|\| item.price`). A truthy `items` that is not an array has no `map`, so the call throws.
- Money is exact. IEEE rounding in `price * quantity`, in the `reduce` sum and in `toFixed` is not modelled.
- Property reads find own keys only. Inherited properties such as `toString` on a parsed object are not modelled.
- Menu.LineEntry: a line whose name lower-cases to `__proto__` contributes no key. In JavaScript that assignment replaces the prototype of `menuItems`, which `Object.keys` does not list. The inherited properties it brings are not modelled.
- Numbers.ParseFloat: JavaScript reads `Infinity`, with an optional sign and any text after it, as an infinite number. The model has no infinite reals, so it reads that literal as `NaN`.
- Cashier.POSCashier.AddCustomItem: a price field reading `Infinity` is accepted by the source, as an infinite price. The model refuses it and changes nothing, because of the `ParseFloat` line above.
- The placeholder markup a new session shows comes from the page's HTML, which is not part of this model; `VoiceSession` starts from the placeholder that `clearTranscription` restores (voice-app.js:557-559).
- WebSockets, `fetch`, `async` and the timers are left out. The socket's state and the save's outcome are parameters, so `completeSale` is atomic and no other handler runs during the `await`.
- The `ADD_ITEM` handler (cashier.js:35-38) passes `price` and `quantity` from the message as they are. The model types them as numbers. A string quantity (on which `+=` concatenates), a non-number price and a missing quantity (for which JavaScript applies the default of 1) are not modelled.
- Cashier.POSCashier.AddToPayment: takes one decimal digit character. The source's `parseInt(digit)` of a non-digit gives `NaN`, and no keypad key sends one.
- Line ids from `Date.now() + Math.random()` are a counter, so they are always fresh. Colliding ids are not modelled.
- A sale record's `id` and `timestamp` are left out: they come from the clock.
- `orderProcessed` is left out. It is written (voice-app.js:115) and never read.
- The field `orderProcessingTimeout` (voice-app.js:16-17) is set to `null` and never used again, so it is left out.
- `scrollTop`, console output, alerts, notifications, `updateDisplay`, `hideAddItemForm` and reading the form's DOM fields are UI only. The form's field values are parameters of `AddCustomItem`.
- `parseOrderFromText` has no caller in voice-app.js. The model states its result on its own and does not connect it to the transcript or to the cashier.
