# react-icons-cli, modelled in Dafny

react-icons-cli is a command-line tool that copies individual icons out of the `react-icons`
package into a project as plain React components. This project models its core:

- the two interactive prompts, `checkbox` (pick any number of icons) and `selectMenu` (pick one
  icon package), as classes whose fields are the prompts' state cells and whose `HandleKey`
  method is the keypress handler;
- the code generation of `src/utils/core.ts`: `genSvg` (an icon tree to JSX markup) and
  `genComponent` (markup to an exported component declaration);
- the text part of `parseIconNames`: the names listed by the `export declare const` lines of a
  package's type declarations, or the "Cannot parse icon names" error.

Modules:

- `Wrappers`: `Option` and `Result`.
- `Strings`: ASCII case mapping, substring search, `String.split` with a string separator,
  `Array.join`, and character counting.
- `Listing`: what the two prompts share. This covers choices and key events, `isAlphabetKey`
  and the case-insensitive search filter. It also covers the wrap-around move of the active
  index and the lookup `items[active]`.
- `CheckboxPrompt`: the multi-select prompt (`CheckboxPrompt.Prompt`).
- `SelectPrompt`: the single-select prompt (`SelectPrompt.Prompt`).
- `Core`: `genSvg`, `genComponent` and the `parseIconNames` pipeline. `genComponent` and the
  attribute string of `genSvg` have readers that take their output apart again.
  `parseIconNames` is checked against a generated declaration file
  (`Core.ParseDeclarationFile`). For `genSvg` as a whole the model proves the tag structure and
  the bracket balance.

A key event is a `Key(name, kind)`. `kind` is the first of the prompt library's classifiers
(Enter, Up, Down, Space, Backspace, number) that accepts the event. An event whose name is
`undefined`, as for a punctuation character such as "." or "-", is `Unnamed`. The handlers
test these in a fixed order, and `ActionOf` in each prompt module gives the branch taken.

Some JavaScript behaviour is modelled as the code has it:

- Up or Down on an empty list stores `NaN` in `active` (`x % 0`). This is `Index.NaN`. In the
  multi-select prompt it stays `NaN` until the next Backspace or typed key, each of which
  resets `active` to 0, even a Backspace on an empty search. In the single-select prompt no
  key resets `active`, so `NaN` is permanent and every later Enter throws.
- Reading `items[active]!.value` when there is no such item throws a TypeError. This is
  `Outcome.Threw`. State set before the throw is kept: the single-select prompt is already
  `Done`, and the multi-select prompt has already hidden its help tip.
- The single-select prompt does not reset `active` when the search changes. After typing
  narrows the list, the old index can point past its end, and Enter then throws.
- An unnamed key event passes every classifier and reaches `isAlphabetKey(undefined)`, whose
  `charCodeAt` throws a TypeError in both prompts before any state cell changes
  (`Action.Throw`, then `Outcome.Threw`).
- The single-select prompt has no Space branch. The space bar's key name, "space", starts with
  a letter, so it is typed into the search (`SelectPrompt.SpaceTypesItsName`).

## Model

| member | source | states |
|---|---|---|
| Listing.IsAlphabetKey | src/cli-components/Checkbox.ts:34-39 | a key name counts as alphabetic exactly when it is non-empty and ASCII case mapping changes its first character; the rest of the name is ignored |
| Listing.Matches | src/cli-components/Checkbox.ts:94 | the empty search matches every value, and a search longer than the value never matches it |
| Listing.MatchesSomewhere | src/cli-components/Checkbox.ts:94 | the case-insensitive regex test succeeds exactly when the search text occurs, up to ASCII case, at some position of the value |
| Listing.MatchesIgnoresCase | src/cli-components/Checkbox.ts:94 | the `i` flag: matching gives the same answer after lower-casing both the search and the value |
| Listing.MatchesNarrows | src/cli-components/Checkbox.ts:93-97 | every value that matches a longer search also matches any prefix of that search |
| Listing.Filter | src/cli-components/Checkbox.ts:90 | the visible items are exactly the choices whose value matches the search, kept in the order of the choices |
| Listing.FilteredValues | src/cli-components/Select.ts:75-77 | every value visible under any search is the value of one of the choices |
| Listing.FilterConcat | src/cli-components/Checkbox.ts:95 | filtering works one choice at a time: filtering a concatenation concatenates the filtered parts |
| Listing.FilterEmptySearch | src/cli-components/Checkbox.ts:61-64 | the empty search shows every choice, so the initial items are the choices |
| Listing.FilterIdempotent | src/cli-components/Checkbox.ts:95 | filtering the visible items again by the same search changes nothing |
| Listing.FilterNarrows | src/cli-components/Checkbox.ts:93-97 | typing more narrows the list: filtering by the longer search equals filtering what the shorter search shows |
| Listing.Dropped | src/cli-components/Checkbox.ts:89-91 | `search.slice(0, -1)`: the empty search stays empty, and any other search loses exactly its last character |
| Listing.EraseWidens | src/cli-components/Checkbox.ts:88-92 | after Backspace, every item that was visible is still visible, in the same order |
| Listing.Moved | src/cli-components/Checkbox.ts:77-80 | Up and Down wrap around, and the result is always in range on a non-empty list; on an empty list or from `NaN` the result is `NaN` |
| Listing.MovedReduces | src/cli-components/Select.ts:62-66 | a move from any index, including one at or past the end of the list, lands where it would from that index reduced modulo the length, so a stale index behaves as its remainder |
| Listing.Lookup | src/cli-components/Select.ts:98 | `items[active]` is defined exactly when the index is a number below the length, and then it is one of the items |
| Listing.ActiveValue | src/cli-components/Checkbox.ts:83 | `items[active]?.value` is defined exactly when the index is in range, and then it is the value of one of the items |
| CheckboxPrompt.ActionOf | src/cli-components/Checkbox.ts:69-98 | the branch a key takes, as an if-and-only-if for each branch: Enter confirms, Up and Down move (upwards exactly for Up), Space toggles, Backspace erases, and exactly the number keys and the other keys whose name looks alphabetic append their own name; an unnamed key throws; every remaining key is ignored |
| CheckboxPrompt.Without | src/cli-components/Checkbox.ts:84 | removing the active value keeps every other checked value, keeps the list free of repeats, and changes nothing when there is no active value or it is not checked |
| CheckboxPrompt.Toggled | src/cli-components/Checkbox.ts:83-87 | Space unchecks the active value if it is checked and checks it otherwise; with no active item the list is unchanged when "" is checked and the handler throws when it is not |
| CheckboxPrompt.ToggleTwice | src/cli-components/Checkbox.ts:81-87 | pressing Space twice on the same value restores the set of checked values |
| CheckboxPrompt.CheckThenUncheck | src/cli-components/Checkbox.ts:81-87 | checking an unchecked value and unchecking it again restores the exact checked list |
| CheckboxPrompt.Selection | src/cli-components/Checkbox.ts:72-76 | Enter resolves with the checked values that are values of the choices, in the order of the choices |
| CheckboxPrompt.SelectionIgnoresCheckOrder | src/cli-components/Checkbox.ts:72-76 | the resolved list depends only on which values are checked, not on the order in which they were checked |
| CheckboxPrompt.NothingChecked | src/cli-components/Checkbox.ts:72-76 | with nothing checked, Enter resolves with the empty list |
| CheckboxPrompt.SelectionCount | src/cli-components/Checkbox.ts:72-76 | when the choices' values are distinct, the resolved list has one entry per checked value |
| CheckboxPrompt.DoneLineIgnoresCheckOrder | src/cli-components/Checkbox.ts:118-123 | the final line lists the checked values in the order of the choices, whatever order they were checked in |
| CheckboxPrompt.DoneLine | src/cli-components/Checkbox.ts:118-123 | the final line starts with the prefix and the message, and is exactly that head when nothing is checked |
| CheckboxPrompt.DoneLineReadsBack | src/cli-components/Checkbox.ts:118-123 | when no value holds a comma and something is selected, splitting the final line after its head at ", " gives back the resolved values, in order |
| CheckboxPrompt.Prompt.constructor | src/cli-components/Checkbox.ts:59-67 | the prompt starts pending, with every choice visible, an empty search, the first item active, the help tip shown and nothing checked |
| CheckboxPrompt.Prompt.HandleKey | src/cli-components/Checkbox.ts:69-99 | the new value of every state cell, for each branch of the handler, and the outcome: the selection on Enter, the TypeError on Space with no active item or on an unnamed key. It keeps the invariant that the items are the filtered choices, the index is in range on a non-empty list, and the checked values are distinct values of the choices |
| CheckboxPrompt.Prompt.View | src/cli-components/Checkbox.ts:118-136 | while the prompt is pending, the key help follows the message exactly while `showHelpTip` holds |
| CheckboxPrompt.ConfirmedAreChecked | src/cli-components/Checkbox.ts:70-76 | in any reachable state, the values Enter resolves with are exactly the checked values, in the order of the choices |
| SelectPrompt.ActionOf | src/cli-components/Select.ts:57-80 | the handler has no toggle branch, and it throws exactly on an unnamed key |
| SelectPrompt.SameDispatchExceptSpace | src/cli-components/Select.ts:57-80 | every key other than Space, unnamed keys included, takes the same branch in both prompts; Space toggles in the multi-select prompt and is typed into the search, if its name looks alphabetic, in the single-select prompt |
| SelectPrompt.SpaceTypesItsName | src/cli-components/Select.ts:73-79 | the space bar falls through to the alphabetic test and types "space" into the search |
| SelectPrompt.Prompt.constructor | src/cli-components/Select.ts:48-55 | the prompt starts pending, on its first render, with every choice visible, an empty search and the first item active |
| SelectPrompt.Prompt.HandleKey | src/cli-components/Select.ts:57-80 | the new value of every state cell for each branch, with `active` changed only by Up and Down. Enter sets the status to done, then resolves with the active item's value, which is a visible value of the choices, or throws when the index is out of range. An unnamed key throws and changes nothing. The items stay the filtered choices |
| SelectPrompt.Prompt.Render | src/cli-components/Select.ts:82-102 | the arrow-key hint appears on the first render only; afterwards `firstRender` is false for good. The done line shows the active value, or "undefined" |
| Strings.IndexOf | src/utils/core.ts:53 | the first position where the separator occurs, with nothing earlier; none exactly when it does not occur |
| Strings.Split | src/utils/core.ts:51 | a split has at least one piece, and exactly one when the separator does not occur |
| Strings.SplitPieces | src/utils/core.ts:51-53 | no piece of a split contains the separator |
| Strings.JoinSplit | src/utils/core.ts:51 | joining the pieces of a split with the same separator gives back the original text |
| Strings.Join | src/utils/core.ts:92 | the joined text starts with the first piece and is as long as all the pieces plus one separator between each two |
| Strings.SplitJoin | src/cli-components/Checkbox.ts:122 | when no piece holds the separator's first character, splitting the joined text at the separator gives back exactly the pieces |
| Core.GenSvg | src/utils/core.ts:89-98 | the markup starts with the indented opening of the tag and ends with the closing tag followed by the trailing indentation |
| Core.ChildrenConcat | src/utils/core.ts:95 | the children's markup is concatenated with nothing in between |
| Core.GenSvgBalanced | src/utils/core.ts:89-98 | when no tag, key or value holds an angle bracket, the markup holds exactly two `<` and two `>` per node of the tree |
| Core.AttrTextRoundTrip | src/utils/core.ts:90-92 | when no key holds `=` and no value holds a quote, the attribute string reads back to exactly the entries, in order |
| Core.GenComponent | src/utils/core.ts:100-108 | when the name holds no `:`, the component declaration reads back to exactly the name and the markup |
| Core.IconName | src/utils/core.ts:53 | a line yields a name exactly when it contains `export declare const ` with its trailing space; the name never holds a `:` |
| Core.Declarations | src/utils/core.ts:52 | the kept lines are exactly those that start with `export declare const`, in their order in the file, with repeats kept |
| Core.DeclarationsConcat | src/utils/core.ts:52 | the filter works line by line: filtering a concatenation of lines concatenates the filtered parts |
| Core.IconNamesOfLines | src/utils/core.ts:50-58 | the parse fails, with "Cannot parse icon names", exactly when some kept line has no separator. Otherwise it gives one name per kept line, in order, and no name holds a colon |
| Core.ParseIconNames | src/utils/core.ts:50-58 | the parse either fails with "Cannot parse icon names" or gives names none of which holds a colon |
| Core.ParseDeclarationFile | src/utils/core.ts:50-53 | a file of `export declare const NAME: IconType;` lines, one per name, parses to exactly those names, in order, for names without spaces, colons or newlines |
| Core.MissingSeparatorFails | src/utils/core.ts:52-57 | one kept line without `export declare const ` (with its trailing space) makes the whole parse fail, whatever lines surround it |
| Core.DeclaredName | src/utils/core.ts:50-53 | a line `export declare const NAME: ...` is kept and yields NAME, for a name without spaces or colons |
| Core.MissingSpaceFails | src/utils/core.ts:52-57 | an example: the one-line file `export declare constX` fails to parse |
| Core.ParsedNamesReadBack | src/utils/core.ts:50-53 | every parsed name can be embedded by `genComponent` and read back unchanged, by the contract of `Core.GenComponent` |

## Left out

- File and network I/O is not modelled. This covers reading `index.d.ts`, and reading,
  creating and updating the components file. `parseIconNames` is modelled from the file's text
  onwards. A failed read, which the same `catch` turns into "Cannot parse icon names", is not
  modelled.
- `parseIconProps` is not modelled: it depends on general regular expressions and `JSON.parse`.
- The `checkbox` and `selectMenu` wrappers are not modelled. They turn any rejection of the
  prompt into "canceled", and they are plain pass-throughs otherwise.
- The prompt library (`createPrompt`, `useState`, `useKeypress`, `usePrefix`) is not modelled;
  its state cells are the class fields. The library's key classifiers are not modelled either:
  a key event carries the classification it gets.
- What the library does with an error thrown from a keypress handler is not modelled. The
  model stops at `Outcome.Threw`.
- Pagination (`usePagination`) and `renderItem` are not modelled: the pending views take the
  rendered page as a parameter. The `item.name ?? item.value` fallback is not modelled, since
  every choice has a name.
- Colours and styling (`chalk`, `figures`) are left out of all rendered text. The prefix and
  the message are parameters.
- Listing.Matches: the search is treated as literal text. The search only ever holds key
  names, and these are letters and digits in practice. A search holding regular-expression
  metacharacters would not be interpreted as the source would.
- Listing.IsAlphabetKey: works on Dafny characters (Unicode scalar values), not on UTF-16 code
  units. The two agree on every name whose first character is in the Basic Multilingual Plane.
- Core.GenSvg: the attributes are taken as a list in `Object.entries` order. JavaScript's
  ordering of integer-like keys is not modelled. A missing `child` array is the empty list.
- The toggle-all (`<a>`) and invert (`<i>`) bindings named in the help tip are not modelled:
  the source does not implement them. Those keys start with a letter, so they are typed into
  the search.
- `src/index.ts` is not part of this model. It is the command-line flow that chains the
  prompts and the file operations.
- `src/utils/constants.ts` is not part of this model. It holds the paths used by the I/O, the
  `imports` header that `updateComponent` writes at the top of a new components file, and a
  read of `ric.config.json` at load time, with "src/components/icons.tsx" as the default
  destination. All of it is I/O and configuration.
- CheckboxPrompt.Prompt.HandleKey and SelectPrompt.Prompt.HandleKey require a pending prompt.
  The handlers have no such guard: the prompt library stops delivering keys after `done()`,
  and that is not modelled.
