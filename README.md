# draftjs-autocomplete: the autocomplete-entity core in Dafny

This project models the autocomplete-entity logic of a rich-text editor built
on draft-js (`src/index.tsx`). When the user types a prefix (`#` for a
hashtag, `@` for a person, `<>` for a reference) with an untagged character
before the cursor, the editor turns the prefix into a provisional MUTABLE
entity. The entity's text is the prefix followed by a U+2009 thin space. While
the cursor sits inside that entity, a suggestion list shows up to four
matching candidates. Up and Down move the highlighted suggestion. Tab and Enter
commit the highlighted suggestion as an IMMUTABLE entity followed by a space.
Escape, and Space in a hashtag, commit the trimmed typed text instead. A
provisional entity whose text has lost its prefix, or its thin space, is
removed and its text is reinserted untagged.

The model works on the one block that holds the cursor. A block is a sequence
of cells, each a character with an optional entity key. It is kept with an
entity table (key to kind, mutability and data) and the key the next entity
receives.

Modules, one per part of the program:

- `Strings`: the JavaScript string operations the code relies on. These are
  `indexOf`, `startsWith`, `replace` of the first occurrence of a character,
  `trim` over the ECMAScript whitespace set, and an ASCII `toLowerCase`.
- `Document`: the block, the entity table, and the effects of the draft-js
  content operations used by the code, as functions on a content snapshot.
  The operations are `createEntity`, `replaceText`, `insertText` and
  `removeRange`. Like draft-js, the rewrites strip a non-MUTABLE entity
  that straddles an edge of the changed range from its whole run.
- `Suggestions`: `genResults` and the query the entity component passes to
  it.
- `SuggestionCursor`: the `selectedIndex` state of the `Autocomplete`
  component, as a class. Its arithmetic is JavaScript's: `%` truncates, and an
  empty list gives NaN.
- `KeyRouter`: `keyBindingsFn` and `handleKeyCommand`.
- `Editor`: the `MyEditor` component as a class holding the content and the
  selection. It has the trigger detector, the active-entity derivation, the
  create, commit (finalize) and remove rewrites, and the remove check that the
  entity component runs.
- `Controller`: the key handler wired by direct calls. The key router's
  command moves the suggestion cursor or commits the composing span.

Each method that rewrites the block is specified by a function of the old
content: `AfterCreate`, `AfterFinalize` or `AfterRemove`. Lemmas state what
each of those functions does to the text, the tags and the entity table.

Where the documented design and the code differ, the model follows the code:

- Cancel does not restore plain text. It commits the trimmed decorated text as
  an IMMUTABLE entity holding `{text}`, followed by a space, exactly like a
  confirm (`src/index.tsx:162`, `:167`).
- Remove leaves the cursor at the start of the removed range, not after the
  prefix (`src/index.tsx:299-303`).
- Remove is passed `end + 1`, so it also deletes the character right after
  the entity, when there is one (`src/index.tsx:145`).
- Next and prev on an empty result list are not guarded. `(i + 1) % 0` is NaN,
  and prev from 0 gives -1 (`src/index.tsx:62`, `:66`).
- A trigger is detected only as the prefix itself, right before the cursor,
  and never by scanning back over typed text. The typed text is tracked by the
  entity created at that moment.
- A provisional entity carries the thin-space marker after its prefix
  (`src/index.tsx:220`).
- The character list lookup `get(anchorOffset - 1)` at offset 0 reads index
  -1, which an Immutable.js list resolves to its last element. So at offset 0
  the first and the last character are compared (`src/index.tsx:243`).

## Model

| member | source | states |
|---|---|---|
| Strings.Lower | src/index.tsx:34 | `toLowerCase` on ASCII: same length, no upper-case letter left, each of A-Z becomes its lower-case partner and every other character is kept |
| Strings.StartsWithIff | src/index.tsx:39 | `startsWith`: a string starts with `p` exactly when it is `p` followed by some string |
| Strings.IndexOf | src/index.tsx:140 | `indexOf` yields -1 or a position at which the needle fits inside the string |
| Strings.IndexFromSpec | src/index.tsx:140-141 | the search from `k` yields an occurrence with none between `k` and it, or -1 when none starts at or after `k` |
| Strings.IndexOfSpec | src/index.tsx:140-141 | `indexOf` is -1 exactly when the needle occurs nowhere; otherwise it is an occurrence with none before it |
| Strings.FirstOfChar | src/index.tsx:141 | for one character, `indexOf` is -1 exactly when the character is absent, and otherwise the index of its first occurrence |
| Strings.RemoveFirst | src/index.tsx:153 | `replace('\u2009', '')` removes only the first occurrence of the character, and leaves a string without it unchanged |
| Strings.Trim | src/index.tsx:162 | `trim()` yields a slice of the input with only whitespace cut on both sides and no whitespace left at either end |
| Strings.TrimKeepsOccurrence | src/index.tsx:162 | an occurrence of a whitespace-free prefix survives `trim()` |
| Document.Prefix | src/index.tsx:10-26 | the three prefixes are non-empty and hold no whitespace and no upper-case letter |
| Document.CharAt | src/index.tsx:242-243 | the character list's `get`: defined exactly for indices from -n to n-1; a non-negative index reads that character, a negative one counts back from the end |
| Document.RunStart | src/index.tsx:129-131 | the run of an entity ending at an offset starts where the character before is not tagged with it |
| Document.RunEnd | src/index.tsx:129-131 | the run of an entity starting at an offset ends where the next character is not tagged with it |
| Document.CreateEntity | src/index.tsx:214 | `createEntity` adds the record under the next key, leaves the cells alone and keeps every tag pointing into the table |
| Document.StripAtEdgeCopy | src/index.tsx:216-223 | stripping at a range edge only drops non-MUTABLE tags: the text is unchanged and the content stays well formed |
| Document.StripAtEdgeRun | src/index.tsx:216-223 | an entity straddling the edge loses its tag on its whole run around the edge and nowhere else, and afterwards nothing straddles the edge |
| Document.StripAtEdgesCopy | src/index.tsx:305-309 | stripping at both edges of a range only drops non-MUTABLE tags and keeps the text |
| Document.ReplaceText | src/index.tsx:216-223 | `replaceText` keeps the entity table, puts the selection after the new text, and changes the length by the text's length minus the range's |
| Document.ReplaceTextLayout | src/index.tsx:216-223 | the text is the old one with the range replaced by the new text; the cells are the new text tagged with the key spliced over the range; the characters around it lose at most a non-MUTABLE tag, and none when no entity straddles either edge |
| Document.ReplaceTextWellFormed | src/index.tsx:216-223 | `replaceText` with a key of the table keeps every tag pointing into the table |
| Document.InsertText | src/index.tsx:279-283 | `insertText` keeps the entity table, adds the text's length, and puts the selection after the text |
| Document.InsertTextLayout | src/index.tsx:279-283 | the text is inserted at the offset, clamped to the block; the cells are the untagged text spliced in there; the characters around it lose at most a non-MUTABLE tag, and none when no entity straddles the offset |
| Document.InsertTextWellFormed | src/index.tsx:311-315 | `insertText` of untagged text keeps every tag pointing into the table |
| Document.SplicedInsert | src/index.tsx:271-283 | an insertion right after a splice's inserted text composes with it into one splice of both texts over the same range |
| Document.CutLayout | src/index.tsx:305-309 | cutting a range keeps exactly the cells before it and from its end on, clamped to the block, and the text likewise |
| Document.RemoveRange | src/index.tsx:305-309 | `removeRange` keeps the entity table and the key counter |
| Document.RemoveRangeWellFormed | src/index.tsx:305-309 | `removeRange` keeps every tag pointing into the table |
| Document.RemoveRangeInside | src/index.tsx:305-309 | a range whose first and last characters carry one entity: a MUTABLE entity loses just the range, any other entity loses its whole run |
| Document.RemoveRangeAcross | src/index.tsx:305-309 | any other range is cut after stripping at both edges: the text loses exactly the range, and the rest is a splice of nothing, exact when no entity straddles either edge |
| Suggestions.Filter | src/index.tsx:33-34 | every kept candidate is in the list and its lower case starts with the needle |
| Suggestions.FilterComplete | src/index.tsx:33-34 | every candidate whose lower case starts with the needle is kept |
| Suggestions.FilterAppend | src/index.tsx:33-34 | filtering keeps list order: a concatenation filters part by part |
| Suggestions.FirstFour | src/index.tsx:35 | `slice(0, 4)` is the first min(4, n) elements |
| Suggestions.Doubled | src/index.tsx:38 | the doubled name list has, at each position, that name, a space and the name again |
| Suggestions.KittenUrl | src/index.tsx:43 | the thumbnail of position i (below 10) is `https://placekitten.com/5i/5i`, the digit i at both places |
| Suggestions.DisplayStartsWithQuery | src/index.tsx:31-51 | a displayed match starts, up to case, with the kind's prefix followed by the query |
| Suggestions.GenResults | src/index.tsx:31-52 | at most four results: the first four matches in list order, shown with their kind's prefix and starting with prefix plus query up to case; people carry the thumbnail of their list position |
| Suggestions.StripTriggerDrops | src/index.tsx:153 | the anchored pattern drops a leading `#`, `@` or `<>`: the result is a suffix at most two shorter, equal to the input exactly when it starts with none of them |
| Suggestions.Query | src/index.tsx:153 | the query is no longer than the decorated text, and without a thin space it is the text with its leading trigger dropped |
| Suggestions.StripPrefix | src/index.tsx:153 | text that starts with a kind's prefix loses exactly that prefix |
| Suggestions.QueryOfComposingText | src/index.tsx:152-154 | the query of a provisional entity reading prefix, typed text, thin space is exactly the typed text |
| SuggestionCursor.JsRem | src/index.tsx:62 | JavaScript `%` for a positive divisor: the Euclidean remainder for a non-negative dividend, a value in (-n, 0] for a negative one, and always congruent to the dividend |
| SuggestionCursor.NextIndex | src/index.tsx:61-63 | next keeps an index in range and is NaN on an empty list |
| SuggestionCursor.PrevIndex | src/index.tsx:65-67 | prev keeps an index in range and goes from 0 to -1 on an empty list |
| SuggestionCursor.NextPrevInverse | src/index.tsx:61-67 | next and prev undo each other on an index in range |
| SuggestionCursor.NextCycle | src/index.tsx:61-63 | next wraps from the last index to 0, and n steps come back to the start |
| SuggestionCursor.ResetIndex | src/index.tsx:57-59 | the reset effect maps an index above n-1 to 0, keeps an index in range, and leaves NaN alone |
| SuggestionCursor.Pick | src/index.tsx:70 | `results[selectedIndex]` is defined exactly when the index is in range, and is then that result |
| SuggestionCursor.SuggestionList.constructor | src/index.tsx:55 | the list mounts with index 0 |
| SuggestionCursor.SuggestionList.Next | src/index.tsx:61-63 | next updates the index and keeps it in range |
| SuggestionCursor.SuggestionList.Prev | src/index.tsx:65-67 | prev updates the index and keeps it in range |
| SuggestionCursor.SuggestionList.ResultsChanged | src/index.tsx:57-59 | a new result count runs the reset, and it brings a non-negative index into range |
| SuggestionCursor.SuggestionList.Confirm | src/index.tsx:69-71 | confirm yields the highlighted result exactly when the index is in range |
| KeyRouter.KeyBinding | src/index.tsx:332-354 | nothing is intercepted when not completing; default bindings keep the key; Escape cancels while completing |
| KeyRouter.KeyBindingIsTable | src/index.tsx:337-353 | while completing, Up, Down, Tab, Enter and Escape (and Space for hashtags) map to prev, next, confirm, confirm and cancel; every other key gets the default binding |
| KeyRouter.HandleKeyCommand | src/index.tsx:356-375 | exactly the four autocomplete commands are handled |
| KeyRouter.HandledIffIntercepted | src/index.tsx:332-375 | a key is handled exactly when an entity is completing and the key is in the table of its kind |
| KeyRouter.SpaceCancelsOnlyHashtags | src/index.tsx:349-351 | Space cancels a hashtag and falls through for a person or a reference |
| Editor.ActiveEntity | src/index.tsx:241-256 | an active entity is the entity of the character at the cursor |
| Editor.ActiveEntityInside | src/index.tsx:242-256 | away from offset 0, an entity is active exactly when the characters on both sides of the cursor carry it |
| Editor.ActiveEntityAtStart | src/index.tsx:243-244 | at offset 0, an entity is active exactly when the first and the last character carry it |
| Editor.FiresIff | src/index.tsx:246-250 | a kind fires exactly when the character before the cursor is untagged and the prefix ends at the cursor; never below the prefix length |
| Editor.AtMostOneFires | src/index.tsx:247-253 | at most one kind fires at an offset |
| Editor.FirstFiring | src/index.tsx:247-253 | the detector's search over the kinds finds a kind that fires, or none fires among those searched |
| Editor.FirstFiringSettles | src/index.tsx:247-253 | once a kind has fired, the later kinds of the search change nothing |
| Editor.Created | src/index.tsx:246-253 | the content after the detector: unchanged when nothing fired; otherwise one more key handed out and one more cell |
| Editor.Triggered | src/index.tsx:246-253 | a kind is triggered exactly when one of `#`, `@`, `<>` fires, and the kind returned fires |
| Editor.Composing | src/index.tsx:128-137 | a composing span exists exactly when an entity is active; it is the maximal run holding the cursor, with its text, kind and data |
| Editor.AfterCreate | src/index.tsx:206-231 | create adds a MUTABLE entity under a key not in the table, keeps the content well formed, and grows the block by the prefix and the thin space minus the range |
| Editor.AfterFinalize | src/index.tsx:259-285 | commit adds an IMMUTABLE entity holding the result under a key not in the table, keeps the content well formed, and grows the block by the result and a space minus the range |
| Editor.AfterRemove | src/index.tsx:288-315 | remove keeps the entity table and the content well formed, and leaves the operation's selection after the reinserted text |
| Editor.CreateLayout | src/index.tsx:206-231 | create writes prefix and thin space over the range and tags exactly those with the new entity; the characters around lose at most a non-MUTABLE tag straddling an edge, and none when none straddles |
| Editor.FinalizeLayout | src/index.tsx:259-285 | commit writes result text and a space over the range and tags exactly the result text with the new entity; the characters around lose at most a non-MUTABLE tag straddling an edge, and none when the result is non-empty and none straddles |
| Editor.RemoveLayout | src/index.tsx:288-320 | remove, passed `end + 1`, untags the run and drops the one character after it from the text; the characters around lose at most a non-MUTABLE tag, and none unless such an entity straddles `end + 1` or carries both the character before the run and the one after the removed character |
| Editor.RemoveStripsFollowing | src/index.tsx:305-315 | a non-MUTABLE entity on both sides of `end + 1` loses its tag on the rest of its run, which moves one place back |
| Editor.CreateThenDerive | src/index.tsx:228-256 | after create, the new entity is active at the cursor and no further trigger fires |
| Editor.FinalizeThenDerive | src/index.tsx:279-285 | after commit, no entity is active at the new cursor and no trigger fires there |
| Editor.ShouldRemoveIff | src/index.tsx:140-141 | an entity is removed exactly when its text lacks the prefix, or lacks the thin space while it holds no committed text |
| Editor.FreshEntityKept | src/index.tsx:140-141 | a freshly created provisional entity is not removed |
| Editor.CommitResult | src/index.tsx:162 | the committed result is the chosen suggestion itself, or else the decorated text trimmed (a slice of it) without thumbnail |
| Editor.CommittedEntityKept | src/index.tsx:156-167 | a committed entity whose text holds its prefix is never removed |
| Editor.MyEditor.constructor | src/index.tsx:201-204 | the editor starts over untagged text with the cursor at offset 0 |
| Editor.MyEditor.KeyCommand | src/index.tsx:332-335 | without an active entity every key gets the default binding; with one, the router's binding while completing, for the active entity's kind |
| Editor.MyEditor.CreateAutocompleteEntity | src/index.tsx:206-232 | the new content is the create rewrite of the range, and the cursor sits after the prefix |
| Editor.MyEditor.CreateTriggeredEntity | src/index.tsx:246-253 | the loop over the kinds creates the entity of the kind that fires over its prefix, and changes nothing when none fires |
| Editor.MyEditor.AutocompleteEntityKey | src/index.tsx:235-257 | returns the entity active before any creation; creates a provisional entity over the prefix exactly when a kind fires, and otherwise changes nothing |
| Editor.MyEditor.OnAutocompleteFinalize | src/index.tsx:259-286 | the new content is the commit rewrite of the range, and the cursor sits after the space |
| Editor.MyEditor.OnAutocompleteRemove | src/index.tsx:288-321 | the new content is the remove rewrite of the range, and the cursor sits at its start |
| Editor.MyEditor.CheckDecoratedRange | src/index.tsx:139-149 | returns the run's decorated text, `end + 1` and the remove verdict for the entity's kind and data; an invalid entity's run is removed with `end + 1`, a valid one leaves the editor unchanged |
| Controller.SpanResults | src/index.tsx:152-154 | the suggestions of a span are those of its kind for the query of its text, so at most four |
| Controller.ResultsCarryPrefix | src/index.tsx:31-51 | every suggestion text contains its kind's prefix |
| Controller.CommitKeepsEntity | src/index.tsx:139-167 | confirming a suggestion or cancelling a span that passed the remove check yields an entity the check keeps |
| Controller.Commit | src/index.tsx:156-167 | committing a span keeps the content well formed and the highlighted index, puts the cursor after the result and a space, and changes the length by the result plus one minus the span |
| Controller.ListMounted | src/index.tsx:178-191 | the suggestion list, with its next/prev/confirm handlers, is mounted exactly when the active entity holds no committed text |
| Controller.KeyEffect | src/index.tsx:356-375 | an unhandled command, or one with no entity active, changes nothing; next and prev change only the highlighted index; cancel commits the trimmed text of the active span; confirm, while the list is mounted, commits the highlighted suggestion (or the trimmed text when none is in range); the content stays well formed |
| Controller.CommittedSpanIgnoresList | src/index.tsx:178-191 | inside an entity holding committed text, next, prev and confirm are handled but change nothing, since no list is mounted to hear them |
| Controller.HandleKey | src/index.tsx:356-375 | the result is the key router's; an unhandled key changes nothing; next and prev move the suggestion cursor only while the list is shown; confirm commits the highlighted suggestion (or the trimmed text); cancel commits the trimmed text |

## Left out

- React rendering, JSX and the hooks lifecycle (`src/index.tsx:109-123`, `178-191`, `391`). These are user interface.
- The `EventTarget` channel and its listener bookkeeping (`src/index.tsx:73-83`, `169-176`, `323-330`). `Controller.HandleKey` makes direct calls instead, so duplicate or missing listener registrations are not modelled.
- `setPosition` and the resize handler (`src/index.tsx:87-107`). These are DOM measurement and floating-point layout.
- Mouse hover and click on a suggestion (`src/index.tsx:113-114`). These are user interface events that set the index or commit, as the key commands do.
- `_.memoize` caching. It cannot be observed, so each lookup is a pure function.
- The contents of `data.json`. The candidate lists are parameters (`Suggestions.Candidates`).
- `webpack.config.js`, which is build configuration.
- `getDefaultKeyBinding`, the draft-js default key binding. It is an opaque `DefaultBinding(keyCode)` command.
- Selection `isBackward` and block keys. The model assumes that every selection lies within the one block that holds the cursor; selections across blocks are not modelled.
- Inline styles. The source passes no style to `replaceText` and `insertText`, and the model carries none.
- One cell stands for one UTF-16 code unit, as JavaScript string offsets do; a character outside the Basic Multilingual Plane is two cells, and nothing in the model pairs them.
- Offsets are unbounded naturals. The model does not require the cursor to lie within the block; an offset past the end reads no character, and `insertText` and the end of `removeRange` are clamped to the block.
- The shared-entity test (`Document.SharedFixed`) also asks that the shared key be in the entity table. In well-formed content this always holds; it only keeps the definition total on ill-formed content.
- Strings.Lower: covers only the ASCII letters A-Z, not the full Unicode case mapping of `toLowerCase`.
- Editor.Composing: takes the run of the active entity that holds the cursor. Several separate runs of one key, which the decorator would render separately, are not distinguished.
- Editor.MyEditor.AutocompleteEntityKey: the `forEach` calls `createAutocompleteEntity` on the same captured state for each kind that fires. At most one kind fires (`Editor.AtMostOneFires`), so `Editor.MyEditor.CreateTriggeredEntity` models the loop as a sequence of in-place updates.
- Controller.HandleKey: the reset effect of the suggestion list (`SuggestionList.ResultsChanged`) runs on a re-render, not inside the key handler, so the handler does not call it.
