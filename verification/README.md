# Weekly menu planner: a Dafny model of its pure core

The weekly-menu page keeps a bank of dishes fetched from a spreadsheet, a
form for adding a dish, a weekly menu of clicked dishes, and a button that
copies a grocery list to the clipboard. This project models the logic under
that glue in `script.js`, as pure functions over immutable values:

- **The dish form** (`addDish`): the title is trimmed. The ingredients field
  is split on commas, every piece is trimmed, and empty pieces are dropped.
  The submission is refused before any request when the title or the
  ingredient list comes out empty (`dishes.dfy`, on top of `trim`, `split`
  and `join` in `strings.dfy`).
- **The weekly menu** (`menu`, `addToMenu`): the menu starts empty. A
  clicked dish is appended unless a dish with an equal title is already on
  it (`menu.dfy`).
- **The grocery list** (`extractList`): the menu's ingredient lists are
  concatenated in menu order. Exact duplicates are removed by a `Set`,
  which keeps first occurrences in order. The result is joined with line
  feeds (`grocery.dfy`, with the order-preserving dedupe in `dedupe.dfy`).

The page keeps no quantities, categories or search, and it does no case
folding or sorting:
- adding a dish whose title is already on the menu changes nothing;
- the grocery list removes only exact, case-sensitive duplicates;
- the list keeps first-occurrence order.

## Model

| member | source | states |
|---|---|---|
| `Strings.TrimStartSpec` | script.js:21 | The leading pass of `trim` removes a whitespace prefix and nothing else, and stops at a non-whitespace character or the end |
| `Strings.TrimEndSpec` | script.js:21 | The trailing pass of `trim` removes a whitespace suffix and nothing else, and stops at a non-whitespace character or the start |
| `Strings.TrimSpec` | script.js:21 | `trim` leaves a slice of the input with only whitespace outside it and no whitespace at either end; the result is empty exactly when the input is blank |
| `Strings.TrimUnique` | script.js:21 | Any slice meeting that description is the trim, so the description pins `trim` down completely |
| `Strings.TrimIdempotent` | script.js:25 | Trimming an already trimmed string changes nothing |
| `Strings.TrimChars` | script.js:25 | Every character of a trim comes from the trimmed string, so trimming a comma-free piece yields a comma-free ingredient |
| `Strings.Split` | script.js:24 | `split(",")` yields at least one piece and no piece contains the separator |
| `Strings.JoinSplit` | script.js:24 | Joining the pieces of a split with the separator gives the original field back, so nothing is lost between separators |
| `Strings.SplitConcat` | script.js:24 | A separator cuts the field into two halves that split independently |
| `Strings.SplitJoin` | script.js:92 | Splitting a join of at least one separator-free piece gives the pieces back |
| `Strings.JoinSnoc` | script.js:92 | `join` on any list: one piece joins to itself, and each further piece is added after exactly one separator |
| `Strings.JoinEmpty` | script.js:92 | A join is empty exactly when there is no piece or a single empty one |
| `Strings.JoinEndsWithLast` | script.js:92 | A join ends with its last piece, so no separator is added after it |
| `Dishes.TrimAll` | script.js:25 | `map(trim)` keeps the number of pieces and trims each piece in place |
| `Dishes.DropEmptySingle` | script.js:26 | `filter(Boolean)` keeps a single string exactly when it is non-empty; with `Dishes.DropEmptyConcat` this fixes order and repetitions on every list |
| `Dishes.DropEmptyConcat` | script.js:26 | Filtering a concatenation filters each part and keeps them in order |
| `Dishes.DropEmpty` | script.js:26 | `filter(Boolean)` keeps exactly the non-empty strings |
| `Dishes.ParseIngredients` | script.js:22-26 | Every parsed ingredient is non-empty, trimmed and comma-free; a string is parsed out iff it is the non-empty trim of some comma-separated piece |
| `Dishes.ParseConcat` | script.js:22-26 | Parsing `a,b` is parsing `a` followed by parsing `b` |
| `Dishes.ParseSingle` | script.js:22-26 | A comma-free field parses to its trim, or to nothing when blank; with `ParseConcat` this determines the parse of every field |
| `Dishes.ParseSkipsEmptyPiece` | script.js:22-26 | An empty piece between consecutive commas leaves no trace: `a,,b` parses like `a,b` |
| `Dishes.ParseEmptyIff` | script.js:22-28 | The ingredient list is empty exactly when the field holds nothing but commas and whitespace |
| `Dishes.CanSubmit` | script.js:28 | The guard of the form: a non-empty title and at least one ingredient |
| `Dishes.SubmitDish` | script.js:21-31 | The form refuses the submission iff the title field is blank or the ingredients field holds only commas and whitespace; otherwise it posts a dish with the trimmed title and a non-empty list of trimmed, non-empty, comma-free ingredients |
| `WeeklyMenu.Find` | script.js:81 | `find` returns nothing iff no menu title is equal; otherwise it returns the first dish with that title |
| `WeeklyMenu.AddToMenu` | script.js:80-86 | A dish whose title is already listed leaves the menu unchanged, whatever its ingredients; otherwise it is appended after the unchanged entries; the title is listed afterwards and distinct titles stay distinct |
| `WeeklyMenu.AddToMenuIdempotent` | script.js:80-86 | Adding a second dish with the title just added changes nothing |
| `WeeklyMenu.ReplayTitlesDistinct` | script.js:80-86 | Starting from the empty menu, no sequence of clicks puts a title on the menu twice |
| `WeeklyMenu.ReplayTitles` | script.js:80-86 | The titles on the menu are the clicked titles without repeats, in order of first click |
| `WeeklyMenu.ReplayKeepsFirstClick` | script.js:80-86 | Each menu entry is the first clicked dish with its title; later same-titled dishes never replace it |
| `Deduplication.Dedupe` | script.js:91 | Spreading through a `Set` gives a duplicate-free list of exactly the input's values, in first-occurrence order |
| `Deduplication.DedupeUnique` | script.js:91 | Only one list is duplicate-free, holds exactly the input's values and is in first-occurrence order |
| `Deduplication.DedupeSnoc` | script.js:91 | Inserting a value already present changes nothing; inserting a new one appends it |
| `Deduplication.DedupePrefix` | script.js:91 | Appending input never reorders or drops what the deduplicated list already held |
| `Deduplication.SpreadSet` | script.js:91 | The one-pass loop with a set of seen values computes exactly the first-occurrence dedupe |
| `Grocery.Flatten` | script.js:90 | `flatMap` over the menu holds exactly the ingredients some dish of the menu lists |
| `Grocery.FlattenSnoc` | script.js:90 | Appending a dish appends its ingredients, in order, to the flattened list |
| `Grocery.ExtractList` | script.js:89-91 | The grocery list has no exact duplicates, holds a string iff some dish on the menu lists it, and follows first-occurrence order across the dishes in menu order |
| `Grocery.JoinLines` | script.js:92 | An empty list joins to the empty string; a non-empty list of newline-free items comes back unchanged when the text is split at line feeds; `Strings.JoinSnoc` fixes the text of every other list |
| `Grocery.ExtractText` | script.js:89-92 | The copied text is empty exactly when every ingredient on the menu is the empty string (in particular when the menu is empty) |
| `Grocery.ExtractTextInitial` | script.js:89-92 | The initial empty menu exports the empty string |
| `Grocery.ExtractTextLines` | script.js:92 | When the grocery list is non-empty and no ingredient contains a line feed, splitting the exported text at line feeds gives the list back, one line per item |
| `Grocery.ExtractTextNoTrailingNewline` | script.js:92 | When the ingredients came through the form, the exported text does not end with a line feed |
| `Grocery.ExtractListGrows` | script.js:80-92 | Adding a dish to the menu only appends to the grocery list, never reordering or dropping an item |

## Left out

- Fetching dishes and posting a new dish (`fetchDishes`, and the request in `addDish`, script.js:8-17 and 33-50) are network I/O against an external endpoint. `SubmitDish` stops at the decision to post and returns the dish that would be sent.
- Rendering the dish bank and the menu (`render`, script.js:54-77) is DOM construction.
- Writing to the clipboard and the alerts (script.js:15, 29, 49, 95-96) are browser side effects. The model returns the text that would be copied.
- The event-listener wiring and the initial fetch (script.js:100-104) are browser side effects.
- The `render([])` and `fetchDishes()` calls inside `addToMenu` (script.js:83-84) only refresh the UI.
- The mutable module-level `menu` (script.js:5) becomes a value: `WeeklyMenu.Initial` and `WeeklyMenu.Replay` thread the menu through a sequence of clicks.
- `Strings.Trim` works on Unicode scalar values, while JavaScript strings are UTF-16 code units. Every character `trim` removes lies in the Basic Multilingual Plane, so the result agrees. The whitespace set is the ECMAScript WhiteSpace and LineTerminator list, with the space separators of current Unicode.
- `Strings.Split` and `Strings.Join` model only a one-character separator, which is all the page uses.
- Dishes from the remote sheet are assumed to have a string title and an array of string ingredients. A malformed record (missing or non-array `ingredients`) is not modelled.
