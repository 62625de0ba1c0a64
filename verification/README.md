# Roofvogel state machine and HTML minifier, modelled in Dafny

This project models two parts of the repository.

1. **The Roofvogel (bird of prey) state-machine editor**
   (`_fabriek/doc/roofvogel-state-machine.jsx`).
   - A table of states over a fixed coordinate space: 5 levels, 6 positions and 3 variants (`normaal`, `ζ`, `η`).
   - Each state may place the bird on another cell, and carries a bird mode.
   - Directed transitions connect the states. Each one is classified by the first axis that changes.
   - The editor operations are `addVariantState`, `addFullVariant`, `removeState`, `updateState`, `addTransition` and `removeTransition`.
   - `generateCSS` compiles the table into a stylesheet. The stylesheet places the bird with radio-button sibling selectors.

2. **The single-file HTML minifier** (`scripts/html_minify.py`). Four parts are modelled:
   - the endless short-name generator;
   - the construction of the class and id renaming maps in `process`;
   - `minify_html`;
   - the rewriting of `class`, `id` and `href="#..."` attribute values, and the hex-colour filter that keeps colours such as `#fff` out of the id set.

The modules follow the source's structure:

- `Optional`, `Decimal`: JavaScript's `null`, and how a number appears inside a template literal
- `Coordinates`: the constants, `stateKey`, `fullLabel`, `shortLabel`, `transitionIcon`, and the nested grid loop
- `StateMachine`: the editor's data and its operations
- `CssGenerator`: `generateCSS`
- `ShortNames`: `generate_short_names`
- `RenameMaps`: step 4 of `process`
- `Whitespace`: Python's `str.isspace`, `strip`, `split` and `' '.join`
- `HtmlMinify`: `minify_html`
- `HtmlRename`: `rename_in_html`
- `CssScan`: the hex-colour filter of `find_css_classes_and_ids`

**The state machine.** The React hooks become one immutable `Editor` value. Each operation is a pure function from the old value to the new one. The invariant `StateMachine.Valid` says:
- ids are unique, and each id is its `variant-level-position` key;
- the whole `normaal` grid is present;
- no transition is dangling, each ordered pair appears at most once, and every edge is labelled and classified as `addTransition` makes it.

Every operation preserves `Valid`, so every state the editor can reach satisfies it.

`generateCSS` is modelled in three parts:
- `Compile` records what the stylesheet says.
- `Render` writes the text.
- `GenerateCssText` builds the same text the way the source does, by appending to a string, and is proved equal to `Render(Compile(..))`.

**The minifier.**
- Each `re.sub` is modelled as a left-to-right scan that replaces a match and continues after it.
- The `n`-th short name is `n + 1` written in bijective base 52.
- The renaming loops are modelled twice: once as written, and once corrected (see Findings).

## Model

| member | source | states |
|---|---|---|
| `Coordinates.VariantNameInjective` | _fabriek/doc/roofvogel-state-machine.jsx:6 | the three variant names are pairwise different |
| `Coordinates.GridComplete` | _fabriek/doc/roofvogel-state-machine.jsx:86-102 | the nested loops over `LEVELS` and `POSITIONS` visit every (level, position) cell |
| `Coordinates.GridDistinct` | _fabriek/doc/roofvogel-state-machine.jsx:86-102 | the nested loops visit no cell twice |
| `Coordinates.CellAt` | _fabriek/doc/roofvogel-state-machine.jsx:88-100 | computes the cell the nested loops visit at step `i`: level `i / 6`, position `13 + i % 6`; `CellAtInjective` shows each step visits its own cell |
| `Coordinates.Grid` | _fabriek/doc/roofvogel-state-machine.jsx:88-100 | computes the 30 cells in loop order, levels outermost; `GridComplete` and `GridDistinct` state that this is every cell exactly once |
| `Coordinates.StateKeyInjective` | _fabriek/doc/roofvogel-state-machine.jsx:36-38 | two keys `variant-level-position` are equal exactly when their triples are equal |
| `Coordinates.StateKey` | _fabriek/doc/roofvogel-state-machine.jsx:36-38 | computes the id `${variant}-${level}-${position}`, the same template as the ids built at jsx:91, 144 and 156; `StateKeyInjective` states that it identifies the triple |
| `Coordinates.StateKeyHasNoArrow` | _fabriek/doc/roofvogel-state-machine.jsx:36-38 | a state key never contains `→`, the character that separates the two ends of a transition id |
| `Coordinates.FullLabelInjective` | _fabriek/doc/roofvogel-state-machine.jsx:44-47 | `fullLabel` tells every triple apart, with or without the variant suffix |
| `Coordinates.FullLabel` | _fabriek/doc/roofvogel-state-machine.jsx:44-47 | computes `L<level> P<position>` for `normaal` and the same followed by ` [<variant>]` otherwise; `FullLabelInjective` states that it identifies the triple |
| `Coordinates.ShortLabelInjective` | _fabriek/doc/roofvogel-state-machine.jsx:49-52 | `shortLabel` tells every triple apart, although `normaal` is written as the empty prefix |
| `Coordinates.ShortLabel` | _fabriek/doc/roofvogel-state-machine.jsx:49-52 | computes `<variant>L<level>P<position>` with the empty prefix for `normaal`; `ShortLabelInjective` states that it identifies the triple |
| `Coordinates.LowerAll` | _fabriek/doc/roofvogel-state-machine.jsx:653 | `toLowerCase` on the label characters: the result has no ASCII capital, capitals map to the matching small letter, and other characters are kept |
| `Coordinates.NormalisedShortLabelInjective` | _fabriek/doc/roofvogel-state-machine.jsx:653-655 | the transitions table looks a typed state up by comparing lower-cased short labels; two states compare equal there exactly when they are the same triple, so the lookup finds at most one state |
| `Coordinates.TransitionIcon` | _fabriek/doc/roofvogel-state-machine.jsx:68-73 | every icon is a single character |
| `Coordinates.TransitionIconInjective` | _fabriek/doc/roofvogel-state-machine.jsx:68-73 | the four axes get four different icons |
| `Decimal.ParseNatToString` | _fabriek/doc/roofvogel-state-machine.jsx:255-256 | a count printed in the CSS header reads back as the same number |
| `Decimal.NatToStringInjective` | _fabriek/doc/roofvogel-state-machine.jsx:255-256 | different counts print differently |
| `StateMachine.TransitionAxis` | _fabriek/doc/roofvogel-state-machine.jsx:54-59 | the axis is `level` iff the levels differ; `position` iff the levels agree and the positions differ; `variant` iff only the variants differ; `none` iff the triples are equal |
| `StateMachine.TransitionIdInjective` | _fabriek/doc/roofvogel-state-machine.jsx:186 | when neither from-id contains `→`, the id `from→to` determines both ends |
| `StateMachine.TransitionId` | _fabriek/doc/roofvogel-state-machine.jsx:186 | computes the id `${fromId}→${toId}`; `TransitionIdInjective` states that it determines both ends |
| `StateMachine.Find` | _fabriek/doc/roofvogel-state-machine.jsx:180-182 | `find` returns a state exactly when some state has the id, and what it returns has that id |
| `StateMachine.Filter` | _fabriek/doc/roofvogel-state-machine.jsx:168-169 | `Array.prototype.filter`: no longer than the input, holding exactly the input elements that pass the test |
| `StateMachine.FilterAppend` | _fabriek/doc/roofvogel-state-machine.jsx:168-169 | filtering works piecewise on a concatenation, so the kept elements stay in their original order |
| `StateMachine.FilterDropsOne` | _fabriek/doc/roofvogel-state-machine.jsx:191 | when exactly one element fails the test, filtering returns the list with that one element cut out |
| `StateMachine.InitialStatesShape` | _fabriek/doc/roofvogel-state-machine.jsx:86-102 | the i-th initial state is the `normaal` state of the i-th cell, keyed by its triple, with no bird and mode `flying` |
| `StateMachine.InitialStates` | _fabriek/doc/roofvogel-state-machine.jsx:86-102 | computes the 30 `normaal` states, one per cell in loop order; the contract gives the length and the i-th state |
| `StateMachine.InitialValid` | _fabriek/doc/roofvogel-state-machine.jsx:86-106 | the initial 30 states and the empty transition list satisfy the invariant |
| `StateMachine.AddVariantState` | _fabriek/doc/roofvogel-state-machine.jsx:143-150 | an existing key leaves the editor unchanged; otherwise one bird-less `flying` state is appended; either way the key then exists |
| `StateMachine.AddVariantStateValid` | _fabriek/doc/roofvogel-state-machine.jsx:143-150 | adding a state preserves the invariant |
| `StateMachine.AddVariantStateIdempotent` | _fabriek/doc/roofvogel-state-machine.jsx:143-150 | adding the same state twice is the same as adding it once |
| `StateMachine.MissingStatesFresh` | _fabriek/doc/roofvogel-state-machine.jsx:152-161 | every state the loop creates belongs to the variant, is keyed, has no bird, lies on a visited cell, and has an id not yet present |
| `StateMachine.MissingStates` | _fabriek/doc/roofvogel-state-machine.jsx:153-161 | computes the states the loop pushes: one new state per visited cell whose key is not found, in loop order; `MissingStatesFresh`, `MissingStatesUnique` and `MissingStatesCover` state what it contains |
| `StateMachine.MissingStatesUnique` | _fabriek/doc/roofvogel-state-machine.jsx:152-161 | over distinct cells the created states have distinct ids |
| `StateMachine.MissingStatesCover` | _fabriek/doc/roofvogel-state-machine.jsx:152-162 | after the append, every visited cell has its state of the variant |
| `StateMachine.AddFullVariant` | _fabriek/doc/roofvogel-state-machine.jsx:152-163 | the existing states stay in place as a prefix, and the transitions are untouched |
| `StateMachine.AddFullVariantComplete` | _fabriek/doc/roofvogel-state-machine.jsx:152-163 | afterwards all 30 states of the variant exist |
| `StateMachine.AddFullVariantNewStates` | _fabriek/doc/roofvogel-state-machine.jsx:158 | each appended state belongs to the variant, has no bird and has mode `flying` |
| `StateMachine.AddFullVariantNoChange` | _fabriek/doc/roofvogel-state-machine.jsx:162 | when nothing is missing the editor is unchanged |
| `StateMachine.AddFullVariantValid` | _fabriek/doc/roofvogel-state-machine.jsx:152-163 | adding a full variant preserves the invariant |
| `StateMachine.AddFullVariantIdempotent` | _fabriek/doc/roofvogel-state-machine.jsx:152-163 | adding a full variant twice is the same as adding it once |
| `StateMachine.RemoveState` | _fabriek/doc/roofvogel-state-machine.jsx:165-169 | a `normaal` state is never removed; any other id is removed, together with every transition from or to it, and all other states and transitions are kept; `RemoveStateSplice` and `RemoveStateTransitionsInOrder` state that they also keep their order |
| `StateMachine.RemoveStateValid` | _fabriek/doc/roofvogel-state-machine.jsx:165-169 | removing a state preserves the invariant: no transition is left dangling and the base grid stays |
| `StateMachine.RemoveStateSplice` | _fabriek/doc/roofvogel-state-machine.jsx:165-168 | with unique ids, removing a state other than a `normaal` one cuts exactly that state out of the list and keeps every other state in place and in order |
| `StateMachine.RemoveStateAbsent` | _fabriek/doc/roofvogel-state-machine.jsx:168 | removing an id no state has leaves the states as they are |
| `StateMachine.RemoveStateTransitionsInOrder` | _fabriek/doc/roofvogel-state-machine.jsx:169 | the transitions that survive a removal keep their order: removal works piecewise on any split of the list |
| `StateMachine.ValidHasNoDanglingTransition` | _fabriek/doc/roofvogel-state-machine.jsx:169 | in a valid editor both ends of every transition exist |
| `StateMachine.ValidTransitionHasAxis` | _fabriek/doc/roofvogel-state-machine.jsx:178-183 | since self-loops are refused and keys are unique, no stored transition has axis `none` |
| `StateMachine.ApplyPatch` | _fabriek/doc/roofvogel-state-machine.jsx:174 | `{ ...s, ...updates }` keeps the id and the triple, and takes each bird attribute from the update when it is present |
| `StateMachine.UpdateStates` | _fabriek/doc/roofvogel-state-machine.jsx:174 | the states with the id are patched in place and every other state is unchanged |
| `StateMachine.UpdateState` | _fabriek/doc/roofvogel-state-machine.jsx:173-175 | the transitions, the length, every id and every triple are kept; only the states with the id change, and they change by the patch |
| `StateMachine.FindUpdate` | _fabriek/doc/roofvogel-state-machine.jsx:173-175 | an update finds the same ids as before, with the same triples |
| `StateMachine.UpdateStateValid` | _fabriek/doc/roofvogel-state-machine.jsx:173-175 | updating bird attributes preserves the invariant, including the axes stored on transitions |
| `StateMachine.DefaultLabel` | _fabriek/doc/roofvogel-state-machine.jsx:186 | `label \|\| transitionIcon(axis)`: a non-empty label is kept, and a missing or empty label becomes the icon; the result is never empty |
| `StateMachine.AddTransition` | _fabriek/doc/roofvogel-state-machine.jsx:177-188 | a self-loop, an existing ordered pair or a missing end leaves the editor unchanged; otherwise exactly one edge `from→to` is appended, carrying the computed axis; the pair is present afterwards iff it was before or the call was accepted |
| `StateMachine.AddTransitionValid` | _fabriek/doc/roofvogel-state-machine.jsx:177-188 | adding a transition preserves the invariant |
| `StateMachine.AddTransitionIdempotent` | _fabriek/doc/roofvogel-state-machine.jsx:177-188 | adding the same transition twice is the same as adding it once |
| `StateMachine.RemoveTransition` | _fabriek/doc/roofvogel-state-machine.jsx:190-192 | the states are kept, and exactly the transitions with another id remain; `RemoveTransitionSplice` states that they keep their order |
| `StateMachine.RemoveTransitionValid` | _fabriek/doc/roofvogel-state-machine.jsx:190-192 | removing a transition preserves the invariant |
| `StateMachine.ValidTransitionIdsUnique` | _fabriek/doc/roofvogel-state-machine.jsx:179-186 | in a valid editor no two transitions share an id |
| `StateMachine.RemoveTransitionRemovesAtMostOne` | _fabriek/doc/roofvogel-state-machine.jsx:190-192 | in a valid editor removing by id drops at most one transition |
| `StateMachine.RemoveTransitionSplice` | _fabriek/doc/roofvogel-state-machine.jsx:190-192 | in a valid editor, removing the id of the i-th transition cuts exactly that transition out and keeps the rest in order |
| `StateMachine.RemoveTransitionAbsent` | _fabriek/doc/roofvogel-state-machine.jsx:190-192 | removing an id that no transition has leaves the editor as it is |
| `StateMachine.StepValid` | _fabriek/doc/roofvogel-state-machine.jsx:143-192 | every editor operation preserves the invariant |
| `StateMachine.ReachableValid` | _fabriek/doc/roofvogel-state-machine.jsx:104-192 | every sequence of operations from the initial editor ends in a valid editor in which the whole `normaal` grid is still present |
| `CssGenerator.BirdStates` | _fabriek/doc/roofvogel-state-machine.jsx:251 | exactly the states with both bird coordinates set are kept |
| `CssGenerator.VariantTransitions` | _fabriek/doc/roofvogel-state-machine.jsx:276 | exactly the transitions on the variant axis are kept |
| `CssGenerator.PlacementOf` | _fabriek/doc/roofvogel-state-machine.jsx:264-272 | the selector uses the state's own triple, the comment uses its full label, the bird lands in grid column `birdPosition - 12` (1..6) and grid row `5 - birdLevel` (1..5), and the rule animates iff the mode is `grabbing` |
| `CssGenerator.Placements` | _fabriek/doc/roofvogel-state-machine.jsx:263-274 | one rule per state with a bird, each inside the 6 × 5 board |
| `CssGenerator.PlacementsOfBirds` | _fabriek/doc/roofvogel-state-machine.jsx:251-263 | filtering the bird states first gives the same rules as scanning all states |
| `CssGenerator.NoteOf` | _fabriek/doc/roofvogel-state-machine.jsx:280-284 | a note is written exactly when both ends of the transition exist |
| `CssGenerator.Notes` | _fabriek/doc/roofvogel-state-machine.jsx:279-285 | the notes the `forEach` collects, one per variant transition whose two ends are found, in order and never more than the transitions; `NotesAppendTransition` states how one more transition extends them |
| `CssGenerator.VariantSection` | _fabriek/doc/roofvogel-state-machine.jsx:277-286 | the notes section: the heading and the note comments when a variant transition exists, empty otherwise; `CompileSections` states when it is present |
| `CssGenerator.NotesAppendTransition` | _fabriek/doc/roofvogel-state-machine.jsx:279-285 | one more transition adds its note at the end exactly when it changes the variant and both of its ends are found, and adds nothing otherwise |
| `CssGenerator.HeaderText` | _fabriek/doc/roofvogel-state-machine.jsx:252-257 | computes the comment header with the bird-state count, the state count and the transition count; `GenerateCssStartsWithHeader` states that every stylesheet starts with it |
| `CssGenerator.PlacementHead` | _fabriek/doc/roofvogel-state-machine.jsx:269-271 | computes the text of a placement rule up to its optional animation line: the comment, the selector, `display`, `grid-column` and `grid-row` |
| `CssGenerator.PlacementText` | _fabriek/doc/roofvogel-state-machine.jsx:264-273 | computes the text of one placement rule: the head, then `  animation: bird-grab 0.3s ease-in-out;` when grabbing, then the closing brace; `PlacementAnimatesIffGrabbing` states when the animation is there |
| `CssGenerator.PlacementAnimatesIffGrabbing` | _fabriek/doc/roofvogel-state-machine.jsx:272 | a placement rule ends with the animation line and the closing brace exactly when the bird mode is `grabbing` |
| `CssGenerator.NoteText` | _fabriek/doc/roofvogel-state-machine.jsx:283-284 | computes the two comment lines of a note: the short labels joined by `⟳`, then the variant names in quotes |
| `CssGenerator.Render` | _fabriek/doc/roofvogel-state-machine.jsx:250-290 | computes the text of a compiled stylesheet: header, fixed rules, placement rules, the optional variant section and the keyframes; `GenerateCssText` states that the appending code produces the same text |
| `CssGenerator.GenerateCss` | _fabriek/doc/roofvogel-state-machine.jsx:250-290 | computes `generateCSS` as `Render(Compile(states, transitions))`; the Compile, CompileSections and GenerateCss lemmas state its properties |
| `CssGenerator.GenerateCssEndsWithKeyframes` | _fabriek/doc/roofvogel-state-machine.jsx:288-289 | every stylesheet ends with the `@keyframes bird-grab` block |
| `CssGenerator.GenerateCssStartsWithHeader` | _fabriek/doc/roofvogel-state-machine.jsx:252-257 | every stylesheet starts with the header counting the bird states, all states and the transitions |
| `CssGenerator.Compile` | _fabriek/doc/roofvogel-state-machine.jsx:250-290 | the header counts the bird states, all states and all transitions; there are as many rules as bird states, all inside the board; there are no more notes than transitions, and none without the section |
| `CssGenerator.CompileSections` | _fabriek/doc/roofvogel-state-machine.jsx:263-277 | there are no placement rules iff no state has a bird, and the variant section appears iff some transition changes variant |
| `CssGenerator.PlacementLoop` | _fabriek/doc/roofvogel-state-machine.jsx:263-274 | the `forEach` accumulation yields the rules of the bird states, in order |
| `CssGenerator.NoteLoop` | _fabriek/doc/roofvogel-state-machine.jsx:279-285 | the `forEach` accumulation yields the notes, in order, skipping transitions with a missing end |
| `CssGenerator.GenerateCssText` | _fabriek/doc/roofvogel-state-machine.jsx:250-290 | the appending implementation produces exactly the rendered stylesheet of `Compile` |
| `CssGenerator.CompileAppendState` | _fabriek/doc/roofvogel-state-machine.jsx:263-274 | a state added at the end adds one rule at the end iff it has a bird, and raises the state count by one |
| `CssGenerator.CompileAppendTransition` | _fabriek/doc/roofvogel-state-machine.jsx:276-286 | a transition added at the end switches the section on iff it changes variant, and adds one note at the end iff it also has both ends |
| `CssGenerator.NotesOfWellFormed` | _fabriek/doc/roofvogel-state-machine.jsx:276-285 | for well-formed variant transitions there is one note per transition, each between two different variants |
| `CssGenerator.ValidNotesComplete` | _fabriek/doc/roofvogel-state-machine.jsx:280-282 | in a valid editor the `if (!from \|\| !to) return` never skips a note |
| `CssGenerator.MinimalDocument` | _fabriek/doc/roofvogel-state-machine.jsx:252-288 | with no bird and no variant transition only the header, the fixed rules and the keyframes remain |
| `CssGenerator.InitialDocument` | _fabriek/doc/roofvogel-state-machine.jsx:86-102 | a fresh editor compiles to the header `0 / 30`, `Transitions: 0`, then the fixed rules and the keyframes |
| `ShortNames.Letter` | scripts/html_minify.py:26 | every digit of `string.ascii_letters` is a letter |
| `ShortNames.ValueOfBijective` | scripts/html_minify.py:29-36 | reading a generated word back in bijective base 52 gives the number it encodes |
| `ShortNames.Bijective` | scripts/html_minify.py:29-36 | computes a number in bijective base 52: the word is non-empty exactly when the number is positive, and all its characters are letters |
| `ShortNames.Value` | scripts/html_minify.py:29-36 | reads a word of letters back as a number in bijective base 52; this inverse has no counterpart in the source, and `ValueOfBijective` and `BijectiveOfValue` use it for the round trip |
| `ShortNames.BijectiveOfValue` | scripts/html_minify.py:29-36 | every word of letters is the encoding of its value |
| `ShortNames.ShortName` | scripts/html_minify.py:24-38 | every yielded name is non-empty and made of letters only |
| `ShortNames.ShortNameInjective` | scripts/html_minify.py:24-38 | the generator never repeats a name |
| `ShortNames.ShortNameOnto` | scripts/html_minify.py:24-38 | every non-empty word of letters is yielded at some point |
| `ShortNames.SingleLetters` | scripts/html_minify.py:31-32 | the first 52 names are `a` … `z`, `A` … `Z` in order, and every later name has at least two letters |
| `ShortNames.TwoLetters` | scripts/html_minify.py:33-36 | the next 52 × 52 names are the two-letter words, in order |
| `ShortNames.ShortNameLengthMonotone` | scripts/html_minify.py:24-38 | names never get shorter along the stream |
| `ShortNames.ShortNameLoop` | scripts/html_minify.py:29-37 | the inner `while num > 0` loop computes the `n`-th name |
| `RenameMaps.ReservedIndices` | scripts/html_minify.py:210 | the reserved names sit at stream positions 0, 1, 8, 15, 16, 18 and 20 |
| `RenameMaps.NextFree` | scripts/html_minify.py:217-219 | skipping reserved names ends at the first unreserved position, and everything skipped was reserved |
| `RenameMaps.NextUnreserved` | scripts/html_minify.py:217-219 | `next` followed by the `while short in reserved` loop returns the first unreserved name and leaves the generator just after it |
| `RenameMaps.FreeIndexDraws` | scripts/html_minify.py:216-227 | the `i`-th name drawn across both loops is the first unreserved name after the previous draw |
| `RenameMaps.FreeIndex` | scripts/html_minify.py:216-227 | gives the stream position of the `i`-th name the two loops keep: at least `i`, and never a reserved position; `FreeIndexDraws` ties it to the generator |
| `RenameMaps.FreeNames` | scripts/html_minify.py:216-227 | no drawn name is reserved, and different draws give different names |
| `RenameMaps.AssignNames` | scripts/html_minify.py:216-222 | the loop builds the map `RenameMap` and advances the generator by one unreserved name per input name |
| `RenameMaps.Saves` | scripts/html_minify.py:221 | the test `len(short) < len(cls)`, plus in the corrected maps the test that `short` is not already one of the names |
| `RenameMaps.RenameMap` | scripts/html_minify.py:216-229 | computes the map one loop builds, whose keys are among the input names; `RenameMapKeys` and `RenameMapHas` give its exact contents |
| `RenameMaps.RenameMapKeys` | scripts/html_minify.py:220-222 | a name is renamed exactly when its drawn name is strictly shorter (and, in the corrected maps, not already a name) |
| `RenameMaps.RenameMapHas` | scripts/html_minify.py:220-222 | such a name is mapped to its own drawn name |
| `RenameMaps.RenamedShorter` | scripts/html_minify.py:220-229 | no value is reserved, and every value is shorter than its key |
| `RenameMaps.RenamedInjective` | scripts/html_minify.py:216-229 | two names in one map get different short names |
| `RenameMaps.RenamedApart` | scripts/html_minify.py:208-229 | since both loops share one generator, no class gets the short name of an id |
| `RenameMaps.BuildRenameMaps` | scripts/html_minify.py:207-229 | the two (corrected) maps have no reserved value, values shorter than keys, injective values within each map, and no value shared between them |
| `RenameMaps.RenameMapRenamesApart` | scripts/html_minify.py:216-229 | with the corrected map, `get(c, c)` sends two names to the same name only when they are the same name |
| `RenameMaps.Rename` | scripts/html_minify.py:145 | `map.get(c, c)`: the mapped value for a key, the name itself otherwise |
| `RenameMaps.RenameMapsAsWrittenCollide` | scripts/html_minify.py:216-222 | as written, of the classes `ab` and `c`, `ab` becomes `c` while `c` stays `c` |
| `Whitespace.StripBounds` | scripts/html_minify.py:118 | `strip()` returns a slice with only whitespace cut off on either side, and the slice has no whitespace at its ends |
| `Whitespace.Strip` | scripts/html_minify.py:118 | computes `str.strip()` as `lstrip` and then `rstrip`; `StripBounds` states which slice it keeps |
| `Whitespace.Split` | scripts/html_minify.py:144 | `split()` yields non-empty words with no whitespace; `HtmlMinify.CollapseRunsJoinsWords` states that they are exactly the maximal runs of non-whitespace, in order, because joining them with single spaces gives `re.sub(r'\s+', ' ', s).strip()` |
| `Whitespace.SplitJoinWords` | scripts/html_minify.py:144-145 | splitting `' '.join(words)` gives the words back |
| `Whitespace.JoinWords` | scripts/html_minify.py:145 | computes `' '.join(words)`; `SplitJoinWords` states that `split()` gives the words back |
| `HtmlMinify.StripOneComment` | scripts/html_minify.py:113 | a comment `<!--…-->` that is not conditional is dropped whole, and scanning resumes right after its first `-->` |
| `HtmlMinify.StripComments` | scripts/html_minify.py:112-113 | the scan for `<!--(?!\[).*?-->` with `re.DOTALL`: it never makes the text longer; `StripOneComment`, `StripCommentsMidComment`, `StripCommentsConditional`, `StripCommentsUnclosed`, `StripCommentsPrefix` and `StripCommentsNoTag` state what it removes and what it keeps |
| `HtmlMinify.StripCommentsPrefix` | scripts/html_minify.py:113 | text before the first `<` is copied, and the rest is processed as if it stood alone |
| `HtmlMinify.StripCommentsMidComment` | scripts/html_minify.py:112-113 | a comment after some text is removed whole and the text before it is kept |
| `HtmlMinify.StripCommentsConditional` | scripts/html_minify.py:112-113 | a conditional comment `<!--[` is not removed: its opening is kept and the text after it is processed in turn |
| `HtmlMinify.StripCommentsUnclosed` | scripts/html_minify.py:113 | text with no `-->` comes back unchanged, since nothing can close a comment |
| `HtmlMinify.StripCommentsNoTag` | scripts/html_minify.py:113 | text without `<` is left alone by the comment pass |
| `HtmlMinify.CollapseTagsVisible` | scripts/html_minify.py:115 | `>\s+<` → `><` deletes whitespace only |
| `HtmlMinify.CollapseTagsGapFree` | scripts/html_minify.py:115 | after the substitution no `>` is followed by whitespace and then `<`: the `<` a replacement emits starts no gap, and a `>` that started no gap keeps its whitespace and the character after it |
| `HtmlMinify.CollapseRunsNoSpacedTags` | scripts/html_minify.py:117 | turning runs into single spaces cannot bring a gap between tags back: from text without gaps it yields no `>`, whitespace, `<` |
| `HtmlMinify.CollapseTags` | scripts/html_minify.py:114-115 | the scan for `>\s+<`, replacing each match with `><`: it never makes the text longer and keeps the first character; `CollapseTagsVisible` states that it deletes whitespace only, `CollapseTagsGapFree` that no gap is left, and `CollapseTagsGapFreeId` and `CollapseTagsPrefix` that nothing outside a gap between tags changes |
| `HtmlMinify.CollapseTagsGapFreeId` | scripts/html_minify.py:114-115 | text with no `>`, whitespace, `<` gap is left exactly as it is |
| `HtmlMinify.CollapseTagsPrefix` | scripts/html_minify.py:114-115 | text before the first `>` is copied, whitespace included, and the rest is processed as if it stood alone |
| `HtmlMinify.CollapseTagsIdempotent` | scripts/html_minify.py:115 | a second pass changes nothing |
| `HtmlMinify.CollapseRuns` | scripts/html_minify.py:117 | `\s+` → ` ` leaves no two adjacent whitespace characters, no whitespace other than the plain space, the first character when it is visible, and an empty result only from empty input; `CollapseRunsJoinsWords` states that each run between two words becomes exactly one space |
| `HtmlMinify.CollapseRunsVisible` | scripts/html_minify.py:117 | collapsing runs keeps every non-whitespace character in order |
| `HtmlMinify.CollapseRunsJoinsWords` | scripts/html_minify.py:117-118 | `re.sub(r'\s+', ' ', s).strip()` equals `' '.join(s.split())` for every text: each run of whitespace between two words becomes one space and is not deleted, and the runs at the ends go |
| `HtmlMinify.MinifyHtmlSpacing` | scripts/html_minify.py:110-118 | the result has no leading or trailing whitespace, no double whitespace, and only plain spaces |
| `HtmlMinify.MinifyHtml` | scripts/html_minify.py:110-118 | computes `minify_html`, the three substitutions followed by `strip()`; `MinifyHtmlWords`, `MinifyHtmlNoSpacedTags`, `MinifyHtmlSpacing` and `MinifyHtmlVisible` state its properties |
| `HtmlMinify.MinifyHtmlVisible` | scripts/html_minify.py:110-118 | apart from the dropped comments, minifying removes whitespace and nothing else |
| `HtmlMinify.MinifyHtmlWords` | scripts/html_minify.py:110-118 | the result is the words of the uncommented, tag-collapsed text joined by single spaces |
| `HtmlMinify.MinifyHtmlText` | scripts/html_minify.py:110-118 | text with no `<` holds no comment and no gap between tags, so the result is its own words joined by single spaces |
| `HtmlMinify.MinifyHtmlNoSpacedTags` | scripts/html_minify.py:115-118 | the result has no `>` followed by whitespace and then `<`: the tag gaps removed at line 115 are not brought back by the run collapsing or the strip |
| `HtmlRename.RenameWords` | scripts/html_minify.py:145 | one output class per input class, each being `class_map.get(c, c)` |
| `HtmlRename.RenameClassValue` | scripts/html_minify.py:143-146 | computes the rewritten class attribute, `' '.join(class_map.get(c, c) for c in value.split())`; `RenameClassTokens` states that the class count is kept |
| `HtmlRename.RenameIdValue` | scripts/html_minify.py:159-161 | computes the rewritten id attribute, `id_map.get(value.strip(), value.strip())`; `RenameIdValueApart` states that distinct ids stay apart |
| `HtmlRename.RenameHrefValue` | scripts/html_minify.py:175-177 | computes the rewritten link target after `#`, `id_map.get(id_val, id_val)` with no strip; `HrefFollowsId` relates it to the id rewrite |
| `HtmlRename.RenameClassTokens` | scripts/html_minify.py:140-146 | when every short name is a word, the rewritten attribute splits into exactly the renamed classes, so the class count is kept |
| `HtmlRename.RenameMapWordValued` | scripts/html_minify.py:145 | the maps built by `process` rename only into non-empty words of letters |
| `HtmlRename.RenameIdValueApart` | scripts/html_minify.py:156-161 | with the corrected map, two `id` attributes naming different ids stay different after renaming |
| `HtmlRename.HrefFollowsId` | scripts/html_minify.py:156-177 | a link `href="#x"` is renamed to the same name as the element `id="x"` when `x` has no whitespace at its ends |
| `CssScan.KeepIds` | scripts/html_minify.py:72-78 | an id is kept exactly when it does not look like a hex colour, and no more ids come out than go in |
| `CssScan.HexPattern` | scripts/html_minify.py:76 | the test `re.match(r'^[0-9a-fA-F]{3,8}$', name)`: 3 to 8 hexadecimal digits, allowing one final newline because of how `$` matches |
| `CssScan.LooksLikeHexColor` | scripts/html_minify.py:76 | the pattern test together with `len(name) in (3, 4, 6, 8)` |
| `CssScan.KeepIdsExact` | scripts/html_minify.py:72-78 | a name without a final newline is dropped exactly when it is 3, 4, 6 or 8 hexadecimal digits, so no hex colour of those lengths ever becomes an id |
| `CssScan.NewlineAfterHex` | scripts/html_minify.py:76 | because Python's `$` also matches before a final newline, the pattern accepts `abc` followed by a newline |

## Left out

- The React rendering is not modelled: the SVG graph, dragging, `snapToGrid`, the graph positions, the tabs, the variant filter, the hover state and `transitionColor`. It is presentation and does not touch the states or transitions.
- The `selectedId` reset in `removeState` (jsx:170) is not modelled: the selection is UI state only.
- React's asynchronous `setStates`/`setTransitions` are modelled as one sequential update. The source checks the closed-over `states` and appends to `prev`; the model treats these as the same value.
- `Level` and `Position` are subset types (0..4 and 13..18). The UI only calls `addVariantState` after checking `LEVELS.includes`/`POSITIONS.includes` (jsx:557), and the bird selects offer only these values. So out-of-range numbers are not representable.
- `updateState` is modelled for the bird attributes it is called with (jsx:597-619, 991-1012). It is not modelled for an arbitrary object spread that could overwrite `id` or the triple.
- In `generateCSS` the text of each rule is modelled exactly. The CSS is not parsed, and only the text is compared.
- The rest of `scripts/html_minify.py` is not modelled, because it is regex-driven text search whose result the modelled parts take as input:
  - `extract_style_blocks`;
  - the comment and string stripping and the selector regexes of `find_css_classes_and_ids` (only the hex filter is modelled);
  - `find_html_classes_and_ids`;
  - `minify_css` and `rename_in_css`;
  - the attribute-locating regexes of `rename_in_html` (only the rewriting of the captured value is modelled);
  - step 5 of `process`;
  - `main` and the file I/O.
- `sorted(all_classes)` and `sorted(all_ids)` are inputs to the model: sequences of distinct names. Which name gets which short name depends on the order; the properties proved hold for any order.
- CssScan.KeepIdsExact: stated for names without a final newline. The selector pattern `#(-?[a-zA-Z_][\w-]*)` never captures a newline; `NewlineAfterHex` shows what the filter would do with one.
- HtmlRename.HrefFollowsId: stated for link targets without surrounding whitespace. `replace_id_attr` strips the value and `replace_href_hash` does not, so `id=" x "` and `href="# x"` are not stated to agree.
- RenameMaps.BuildRenameMaps: returns the corrected maps, in which a drawn short name that is already one of the names is not used (see Findings). The maps as written are `RenameMap(names, offset, {})`; for those, `RenamedShorter`, `RenamedInjective` and `RenamedApart` still hold, but `RenameMapRenamesApart` does not.
- The state lookup in the transitions table (jsx:653) also deletes whitespace with `replace(/\s/g, "")`. The model leaves this out: a short label holds only digits, `L`, `P`, `ζ` and `η`, so whitespace matters only for the typed text, and that text is an input. `toLowerCase` is modelled on ASCII capitals only; `ζ` and `η` are already lower case.
- Python's `re` engine is not modelled in general: each of the three `re.sub` calls of `minify_html` is written out as the scan it performs.

## Findings

| source | as written | input that shows it | evidently intended | confidence | as-written member | corrected member |
|---|---|---|---|---|---|---|
| scripts/html_minify.py:216-229 | a name is renamed whenever its drawn short name is shorter, even when that short name is itself one of the names, which then keeps its own name | classes `{"ab", "c"}`: `ab` draws `c` and is renamed to `c`; `c` draws `d`, which saves nothing, so `c` stays `c`; both classes end up as `c` | a drawn short name that is already a class (or, in the id loop, an id) is not used, so renaming never merges two names | not executed | `RenameMaps.RenameMapsAsWrittenCollide` | `RenameMaps.RenameMapRenamesApart` |
