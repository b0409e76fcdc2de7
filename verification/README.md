# float-console: the console capture core in Dafny

float-console is a browser extension. A content script replaces the page's `console` methods
so that every call is also posted, as a structured record, to an in-page log viewer. This
project models the part of that script that decides *what* is posted, and it proves
properties of that model:

- **`safeStringify`**: a depth-bounded serializer for arbitrary JavaScript values, cyclic
  object graphs included (module `Serializer`).
- **`formatMessage`**: rebuilds the browser's `%c` styling protocol into an ordered list of
  `{text, style}` parts, with a `hasStyles` flag (module `Format`). It has three passes:
  - the scan of the format string;
  - the trailing pass over the arguments the scan did not consume;
  - the plain pass used when no argument contains `%c`.
- **`console.table`** (module `TableCommand`) turns its first argument into rows and headers.
  **`formatTableAsText`** (module `Table`) draws them as a box-drawing grid. Widths are
  clamped to 8..50, at most 100 rows are drawn, and a "more rows" summary follows when rows
  are cut.
- **The group state** shared by the wrappers, `groupDepth` and `groupStack`, and the records
  the wrappers post (module `Capture`, class `ConsoleCapture`).
- **`sanitizeInput`** and **`isValidMessageOrigin`** from the shared security helpers
  (module `Security`).

How JavaScript is represented (modules `JsStrings` and `JsValues`):

- JavaScript values are a `Value` datatype. Objects live in a `Heap` keyed by address, so
  arrays and objects can refer to each other or to themselves.
- A property read either yields a value or runs a getter that throws (`Getter.Throwing`).
- The model captures exceptions in three places:
  - a throwing getter;
  - `JSON.stringify` of a BigInt (a TypeError);
  - `toISOString` of an invalid date (a RangeError).

  The serializer answers the last two with `[Circular or Non-Serializable Object]`.
- Strings are `seq<char>`. JavaScript's string primitives are written out over it: `trim`,
  `indexOf`, `includes`, `padEnd`, `repeat`, `join`, and integer-to-decimal text.

How the code is modelled:

- Code that loops and updates variables is a `method` with loop invariants. Each such method
  is proved equal to a specification function:
  - `Format.FormatMessage` to `FormatSpec`;
  - `Table.FormatTableAsText` to `TableSpec`;
  - `TableCommand.TableMessage` to `TableLogSpec`.
  The properties of the source are then lemmas about those functions.
- The wrappers' shared state is a class whose methods update `groupDepth`, `groupStack` and
  the sequence of posted records.

## Model

| member | source | states |
|---|---|---|
| JsStrings.TrimStartShape | src/utils/security.js:57 | `trimStart` removes exactly a leading run of white space: the result is a suffix of the input, every removed character is white space, and the result is empty or starts with non-white space |
| JsStrings.TrimEndShape | src/utils/security.js:57 | `trimEnd` removes exactly a trailing run of white space: the result is a prefix, every removed character is white space, and the result is empty or ends with non-white space |
| JsStrings.TrimShape | src/utils/security.js:57 | `trim` never lengthens a string, and its result neither starts nor ends with white space |
| JsStrings.TrimUnchanged | src/utils/security.js:57 | a string that neither starts nor ends with white space is its own `trim` |
| JsStrings.IndexOfSpec | src/content/logger.js:83 | `indexOf(sub, from)` returns the first occurrence at or after `from`, and returns -1 exactly when there is none |
| JsStrings.ContainsIff | src/content/logger.js:74 | `includes(sub)` holds if and only if `sub` occurs at some position |
| JsStrings.JoinLength | src/content/logger.js:333 | the length of `join(sep)` is the sum of the item lengths plus one separator between each pair of neighbours |
| JsStrings.PadEnd | src/content/logger.js:339 | `padEnd(n)` keeps the string and fills it with spaces up to length `n`; a longer string is returned unchanged |
| JsStrings.NatToStringRoundTrip | src/content/logger.js:45 | the decimal text of a length reads back as the same number |
| JsValues.ArrayIndex | src/content/logger.js:326 | a key names an array index only when it is that index's canonical decimal text |
| JsValues.FindProp | src/content/logger.js:51 | property lookup finds a property if and only if one has that key, and returns the first one |
| JsValues.OwnKeys | src/content/logger.js:48 | `Object.keys` of a plain object lists its own properties' keys in order |
| Security.RemoveNul | src/utils/security.js:55 | removing NUL never lengthens the string and leaves no NUL |
| Security.RemoveControls | src/utils/security.js:56 | removing the class `[\x00-\x1F\x7F]` leaves no control character and keeps a string that had none |
| Security.NulPassRedundant | src/utils/security.js:55-56 | the NUL pass changes nothing: removing control characters alone gives the same result |
| Security.TrimKeeps | src/utils/security.js:57 | the trimmed string is a contiguous piece of the input |
| Security.SanitizeInput | src/utils/security.js:49-64 | a non-string gives ""; the result has no control characters; it is never longer than `maxLength` (nor than 0 when that is negative); it is a prefix of the cleaned text, and all of it when that fits |
| Security.SanitizeInputDefault | src/utils/security.js:49-64 | with the default `maxLength` of 1000: at most 1000 characters without control characters; the whole cleaned text when it fits, otherwise its first 1000 characters |
| Security.SanitizeFixedPoint | src/utils/security.js:49-64 | a clean, trimmed string that fits is returned unchanged |
| Security.SanitizeCuts | src/utils/security.js:59-61 | a clean, trimmed string longer than `maxLength` is cut to its first `maxLength` characters |
| Security.SanitizeTwice | src/utils/security.js:54-61 | sanitizing a sanitized string only trims the end that truncation exposed |
| Security.SanitizeNotIdempotent | src/utils/security.js:54-61 | when the cut ends in a space, a second pass returns something strictly shorter, so sanitizing is not idempotent |
| Security.IsValidMessageOrigin | src/utils/security.js:37-47 | a message is accepted if and only if it comes from the page's own window, or has a non-empty origin that starts with `chrome-extension://` |
| Security.WebOriginRefused | src/utils/security.js:42-44 | an `https://` origin from another window is refused, whatever follows it; an extension origin is accepted |
| Serializer.SafeStringify | src/content/logger.js:23-26 | any call deeper than 10 answers `[Max Depth Reached]`; the function is total on every heap, cyclic ones included |
| Serializer.ArrayText | src/content/logger.js:43-46 | the definition's shape, unfolded: an array is written as `(n) [` followed by its elements, each serialized one level deeper, joined by `, `, and `]` |
| Serializer.ObjectText | src/content/logger.js:47-56 | the definition's shape, unfolded: an object is written as `"key": value` pairs for its first 50 keys, in key order, with `...` when it has more; a throwing getter gives `[Error serializing]` for its key |
| Serializer.KeyFailureIsolated | src/content/logger.js:49-55 | a getter that throws changes only its own pair; every other pair is the same |
| Serializer.KeysPastLimitIgnored | src/content/logger.js:48-56 | two objects with more than 50 keys that agree on their first 50 serialize identically |
| Serializer.SelfReferenceStep | src/content/logger.js:47-56 | an object whose only property refers to itself is written as one `"self"` pair around the next level's text |
| Serializer.SelfReference | src/content/logger.js:23-62 | such an object serializes as exactly eleven nested `{"self": ` openings around `[Max Depth Reached]`, then the closing braces: the depth bound cuts the cycle |
| Format.FindFormat | src/content/logger.js:72-78 | the format string is the first argument that is a string containing `%c`; None exactly when there is no such argument |
| Format.FormatMessage | src/content/logger.js:64-212 | the method builds exactly the message `FormatSpec` describes |
| Format.ScanFormatString | src/content/logger.js:80-132 | the `%c` scan loop produces the parts and next style index of `Walk`, and the consumed set is exactly the indices 1 up to that index |
| Format.ScanStep | src/content/logger.js:83-131 | one loop iteration advances the position and keeps the parts produced so far plus the rest of the walk equal to the whole walk; the style index grows only over an argument that is a style |
| Format.ScanSegment | src/content/logger.js:97-129 | the text after a `%c` runs to the next `%c` or the end; it becomes a part styled by the next argument when that is a style string, and unstyled otherwise |
| Format.WalkStep | src/content/logger.js:83-131 | the definition's shape, unfolded: the walk from a position with a `%c` ahead is the leading text, then the segment, then the walk from the segment's end |
| Format.WalkText | src/content/logger.js:80-132 | the texts of the parts, concatenated, are the format string with every `%c` removed |
| Format.WalkPartsNonEmpty | src/content/logger.js:87-129 | no part built from the format string has empty text |
| Format.WalkStyles | src/content/logger.js:104-128 | the styles used, in order, are exactly the arguments 1, 2, … up to the index where the scan stopped, each of them a style string |
| Format.AppendLeftover | src/content/logger.js:134-177 | one iteration of the trailing pass adds the next kept argument's text exactly as pushing it onto the parts does |
| Format.AppendLeftovers | src/content/logger.js:134-178 | the trailing pass appends, in order, the texts of the arguments that are neither consumed styles, nor the format string at index 0, nor style strings |
| Format.AppendAll | src/content/logger.js:184-208 | without a format string every argument's text is pushed in order |
| Format.PushAllParts | src/content/logger.js:164-177 | pushing texts keeps the earlier parts, skips empty texts, and adds one unstyled part per non-empty text; a text that opens an object, array or array count after a part ending in `:` gets a leading space |
| Format.FormatWithMarkers | src/content/logger.js:80-182 | with a format string: the message starts with the scanned parts, whose text is the format string without `%c`; the other arguments follow; every part has text; the styles are the consumed arguments in order; `hasStyles` holds if and only if a style was consumed |
| Format.FormatWithoutMarkers | src/content/logger.js:183-211 | without a format string: every argument's non-empty text appears as an unstyled part, in order, and `hasStyles` is false |
| Format.KeptIndicesExact | src/content/logger.js:134-159 | the trailing pass visits, in increasing order, exactly the arguments it keeps |
| Format.LeftoverSelection | src/content/logger.js:134-162 | each text the trailing pass appends is the text of the kept argument at the same position |
| Format.ConsumedNotKept | src/content/logger.js:134-159 | a consumed style argument, or any style string, is never appended as text |
| Format.FormatStringRepeated | src/content/logger.js:136 | a format string that is not the first argument is appended again as trailing text when it is not itself a style string |
| Format.AnyStyledIff | src/content/logger.js:180-181 | some part has a style if and only if the list of styles is non-empty |
| Table.FindField | src/content/logger.js:286-299 | a field of a built row is found if and only if one has that key, and the first one is returned |
| Table.CellAt | src/content/logger.js:326 | a cell is the text of the first entry of the row with that header |
| Table.CellAbsent | src/content/logger.js:326 | a header the row lacks reads as the empty string |
| Table.ViewAgrees | src/content/logger.js:326 | the row view used for drawing gives, for every header, the same text as reading `row[header]` from the heap (None when the getter throws) |
| Table.Clamp | src/content/logger.js:329 | a width is clamped into 8..50 and kept when already inside |
| Table.Shown | src/content/logger.js:320 | at most 100 rows are drawn: all of them when there are fewer |
| Table.ColumnWidth | src/content/logger.js:322-330 | a column's width is the clamped longest of its header and its drawn cells, and it is None exactly when reading one of those cells throws |
| Table.ColumnWidths | src/content/logger.js:322-330 | the widths of all columns, None exactly when some drawn cell cannot be read |
| Table.LongestIsMax | src/content/logger.js:323-328 | the measured length is at least the header and every drawn cell, and equals one of them |
| Table.WidthFits | src/content/logger.js:322-330 | every width lies in 8..50, covers the header and every drawn cell up to 50, and is 8, 50, the header's length or some cell's length |
| Table.AppendRows | src/content/logger.js:347-365 | the row loop appends exactly the lines of the drawn rows, each followed by a newline |
| Table.DrawTable | src/content/logger.js:332-371 | the drawing code produces the title, top border, header line, rule, row lines, bottom border and summary of `Render` |
| Table.FormatTableAsText | src/content/logger.js:315-374 | the method returns `TableSpec`: `Table: Empty` for no rows or no headers, None when a drawn cell throws, the grid otherwise |
| Table.FitCellShape | src/content/logger.js:355-359 | a drawn cell is exactly its column's width: a short value padded with spaces, a long one cut and ended with `...` |
| Table.DrawnCell | src/content/logger.js:354-359 | a value of at most 50 characters is drawn whole and padded; a longer one sits in a 50-wide column as its first 47 characters and `...` |
| Table.BorderWidth | src/content/logger.js:333 | a border line is as wide as the grid: the widths plus two per column plus one per column rule |
| Table.RowLineWidth | src/content/logger.js:350-362 | every row line has the grid's width |
| Table.HeaderLineWidth | src/content/logger.js:335-342 | the header line has the grid's width when every header fits its column, and is wider when one does not |
| Table.GridAligned | src/content/logger.js:332-367 | borders and row lines all have the same width, and the header line matches it if and only if no header is longer than 50 |
| Table.TableEnding | src/content/logger.js:367-373 | the text ends with the bottom border and a newline when every row is drawn, and with `... (k more rows)` for the k rows left out |
| Table.RowsPastLimitIgnored | src/content/logger.js:320-365 | two row lists of the same length that agree on the drawn rows give the same text |
| TableCommand.IndexKeysParse | src/content/logger.js:291 | every index key passes the `!isNaN(parseInt(key))` test |
| TableCommand.ParseIntAccepts | src/content/logger.js:291 | the test also accepts keys that are not indices, such as `-3` and `12px` |
| TableCommand.ParseIntRejects | src/content/logger.js:291 | keys without a leading digit, and a bare `0x`, fail the test |
| TableCommand.ElementRows | src/content/logger.js:283 | the definition's shape, unfolded: each element, as it is, is one row, in order (when this plan is chosen is stated by `TableCommand.TablePlan` and `TableCommand.ArrayOfObjects`) |
| TableCommand.IndexedRows | src/content/logger.js:286 | one `{index: i, value: item}` row per array element, in order |
| TableCommand.ArrayLikeRows | src/content/logger.js:295 | one `{index: key, value}` row per key, in order |
| TableCommand.KeyedRows | src/content/logger.js:299 | one `{index: i, key, value}` row per key, in order |
| TableCommand.ReadAll | src/content/logger.js:290-301 | reading every key's value fails if and only if some getter throws; otherwise it gives each key's value, in order |
| TableCommand.TablePlan | src/content/logger.js:279-304 | the rows refer only to heap objects; unless the data's own elements are the rows, the headers start with `(index)` and no built row has that key; reading throws if and only if the data is a non-array object with a throwing getter among its own keys; the arguments are formatted instead if and only if the data is not an object, or is an empty array |
| TableCommand.ArrayPlan | src/content/logger.js:279-288 | an array of primitives gives headers `(index)`, `value` and one row per element holding that element as its value |
| TableCommand.ObjectPlan | src/content/logger.js:289-301 | an object gives one row per own key, holding that key's value; the plan is `ReadThrows` if and only if the getter of one of its own keys throws, and never a plain log |
| TableCommand.KeyPlan | src/content/logger.js:293-301 | the rows hold the values in key order, under headers that start with `(index)` |
| TableCommand.TableMessage | src/content/logger.js:275-312 | the method logs exactly `TableLogSpec`: the grid or the formatted arguments, then the serialized data; or `Table: ` and the formatted arguments when something threw |
| TableCommand.FallbackIffThrows | src/content/logger.js:275-312 | the fallback is taken if and only if the data is a non-array object with a throwing getter among its own keys, or a drawn cell's getter throws |
| TableCommand.GridFallback | src/content/logger.js:322-330 | the definition's shape, unfolded: drawing fails if and only if there are rows and headers and some drawn cell cannot be read |
| TableCommand.UnreadableIffThrows | src/content/logger.js:326 | a drawn cell is unreadable in the view if and only if reading it from the heap throws |
| TableCommand.IndexColumnBlank | src/content/logger.js:285-299 | built rows have no `(index)` key, so that column is blank and 8 wide, never the row numbers |
| TableCommand.ValueColumn | src/content/logger.js:286-299 | the `value` column of row i shows the i-th element, or the value of the i-th own key |
| TableCommand.ArrayOfObjects | src/content/logger.js:279-283 | the definition's shape, unfolded: an empty array is formatted like a log call; an array whose first element is an object is drawn with that object's keys as headers and its elements as rows |
| Capture.GroupLabel | src/content/logger.js:245 | the label is "Group" if and only if there are no arguments; otherwise it is the formatted arguments |
| Capture.Label | src/content/logger.js:245 | the method computes `GroupLabel` |
| Capture.ConsoleCapture.constructor | src/content/logger.js:16-17 | the depth starts at 0 with an empty stack and nothing posted |
| Capture.ConsoleCapture.Emit | src/content/logger.js:235-241 | a log call appends one record with the formatted arguments at the current depth, marked in a group when the depth is positive, and leaves the group state alone |
| Capture.ConsoleCapture.StartGroup | src/content/logger.js:243-257 | opening a group pushes its label and collapsed flag, increments the depth, and posts its start at the depth it was opened from |
| Capture.ConsoleCapture.EndGroup | src/content/logger.js:259-266 | closing a group pops the stack, decrements the depth and posts the end at the new depth; with no group open nothing changes |
| Capture.ConsoleCapture.Table | src/content/logger.js:268-313 | no arguments post nothing; otherwise one log record with the table text at depth 0, whatever the depth |
| Capture.GroupThenEnd | src/content/logger.js:243-266 | opening and closing a group restores the depth and the stack, and its two records carry the same depth |

## Left out

- Posting: `postLog`, `window.postMessage` and the timestamp are not modelled. A record's
  fields are kept in `ConsoleCapture.posted` instead.
- The pass-through calls to the original console methods are not modelled. They do not affect
  what is posted.
- The `onerror` and `unhandledrejection` hooks are not modelled. They post their own error
  records, with text they build themselves, through `postLog`.
- `cleanupLogger` is not modelled. It restores the original console methods and handlers.
- The message is the parts record, not its JSON text. `JSON.stringify` of the record is a
  fixed encoding with no branches of its own.
- `TableCommand.FallbackIffThrows`: `String(x)` is modelled as never throwing. In the source,
  `String(row[header])` throws a TypeError for a cell value without a usable primitive
  conversion, such as `Object.create(null)` or an object whose `toString` or
  `Symbol.toPrimitive` throws. Such a cell also takes the `Table: ` fallback, and the model
  does not capture that case.
- Sparse arrays, such as `[1, , 3]`, are not modelled: an array is a dense sequence of values.
  In the source, `map` skips holes and `join` writes them as empty text, giving `(3) [1, , 3]`.
  In `console.table`, `data.map` keeps holes as blank rows.
- Text the runtime computes is carried as uninterpreted data on the value: `String(x)` of
  numbers, BigInts, functions and objects, and `toISOString()` of a date.
- Property lookup reads these own properties:
  - a plain object's properties;
  - an array's or a string's canonical index keys;
  - an error's `message` and `stack`;
  - a function's `name`.

  Not modelled, and read as undefined:
  - the prototype chain (an error's `name`, for instance);
  - the `length` of arrays, strings and functions;
  - a regular expression's `lastIndex`;
  - getters on arrays.
- A character is a Unicode scalar value, not a UTF-16 code unit. So a character outside the
  Basic Multilingual Plane counts as one, where JavaScript's `length` counts two. Nothing is
  normalised.
- `Security.SanitizeInput`: on text outside the Basic Multilingual Plane, `maxLength` counts
  characters, not UTF-16 code units. The cut at `maxLength` never splits a surrogate pair,
  though `substring` in the source can.
- `Table.FormatTableAsText`: on text outside the Basic Multilingual Plane, lengths count
  characters, not UTF-16 code units. This affects the column widths (`Table.Clamp`,
  `Table.LongestIsMax`), the cut of a long cell (`Table.FitCellShape`) and the padding
  (`JsStrings.PadEnd`).
- `Security.SanitizeInput`: `maxLength` is an integer. A non-number or fractional
  `maxLength` and the effect of `NaN` on `substring` are not modelled.
- Throwing getters are modelled on plain objects. Getters that throw while an `Error`'s
  fields are read are not modelled.
- The log buffer, the viewer's rendering and the viewer's filtering are not modelled. They are
  outside the capture script.
- A row is drawn from a `RowView`: the text of each header's cell, or None where the getter
  throws. `Table.ViewAgrees` and `TableCommand.UnreadableIffThrows` connect it to reading
  `row[header]` from the heap.

Where the extension's documented behaviour and its code disagree, the model follows the
code:

- **Array-like objects.** An object counts as array-like when every key passes
  `!isNaN(parseInt(key))`, not only when every key is a non-negative integer.
  `TableCommand.ParseIntAccepts` shows keys such as `-3` and `12px` passing.
- **Errors.** An `Error` is serialized through `JSON.stringify` of its name, message and
  stack, then `\n` escapes are turned back into newlines. It does not go through the
  recursive serializer.
- **Empty `%c` segments.** An empty segment after `%c` produces no part and consumes no
  style argument.
- **Format string in the trailing pass.** The format string is skipped only when it is the
  first argument (`Format.FormatStringRepeated`).
- **`console.table` and groups.** `console.table` posts at depth 0, even inside a group.
- **Table fallback.** When the table cannot be built, the logged text is `Table: ` followed
  by the formatted arguments.
