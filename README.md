# Card decks and enchantment navigator: a Dafny model

This project models the state logic of the two views of a small card-game front end:

- **The deck collection** (`src/HorizontalDecks.tsx`). Four named decks, each with 280 optional card slots. `currentIndex` is the slot on display and `history` is a stack of previously displayed positions. Six events change the modelled state:
  - first load builds the default collection or restores the stored one;
  - "Tap to Begin" sets the started flag and writes the collection to storage;
  - a chosen image is stored in a slot under a fresh id and the label from a prompt;
  - a long press jumps to a random filled slot and pushes the old position onto `history`;
  - each pass of the text-recognition loop shows the trimmed text and speaks it only when it is non-empty and differs from the last spoken text;
  - the end of an utterance clears the speaking flag.

  Once the user has pressed "Tap to Begin", every change to the collection is mirrored to storage as a snapshot of the whole collection.
- **The enchantment navigator** (`src/EnchantmentCard.tsx`). A linear history of drawn enchantment texts with a position `index`. "New Card" cuts the history after the position, appends the draw and moves the position up by one. "Previous" moves the position down, floored at 0. The record on display is the entry at the position, or a random catalog entry when there is none. It is upper-cased and split into a title line and effect lines. The cosmetic fields (dismantle costs, value, slots, category) are picked from fixed catalogs on every render.

Files:

- `wrappers.dfy`: the `Option` type.
- `text.dfy`: JavaScript's `trim`, ASCII `toUpperCase`, and `split`/`join` on one character.
- `decks.dfy`: the collection updaters as pure functions, with lemmas about them. It also holds `DeckStore`, the component's state cells, as a class whose methods apply one event followed by the persistence effect.
- `enchantment.dfy`: the navigator step functions and the display derivations, with lemmas. It also holds `Navigator`, the two state cells, as a class.

Random choices and fresh ids are parameters. Every `Math.random` pick is a position `k` into the list it indexes, and every `uuidv4()` is a caller-supplied id. Dafny reserves `label`, so a card's label is the field `caption`.

Points where the code behaves in a way worth stating, and what the model does about each:

- **Draw from the end of the history.** The card on display is `history[index]` (`src/EnchantmentCard.tsx:35`), so a draw evidently means to move `index` onto the entry it appends. In the code, a draw from the end of the history (every draw in a run of draws from the first render, as `DrawsOnlyStayPastEnd` proves) leaves `index == |history|`, and the display falls back to a random catalog entry. `Navigator` keeps the code's behaviour; `DrawnIntended` is the draw that lands on the appended entry (see Findings).
- **Display fallback.** The code falls back to a random catalog entry whenever `history[index]` is missing or empty.
- **Stored snapshot.** The code restores whatever `JSON.parse` returns from storage without checking it. The model requires the stored collection to satisfy the collection invariant, and every store method keeps `DeckStore.Valid`, which requires the snapshot to meet that invariant; `Decks.Reload` reads such a snapshot back.
- **Duplicate deck ids.** The jump reads the first deck with the given id, but its update applies to every deck with that id. The model does the same. Slot assignment likewise applies to every deck with the id, and the code draws a fresh `uuidv4()` for each of them; the model takes one fresh id per deck position. The lemmas that talk about one deck assume unique ids, and the default collection has unique ids when the four fresh ids are distinct.

## Model

| member | source | states |
|---|---|---|
| `Text.Trim` | src/HorizontalDecks.tsx:88 | the result is the input with its leading and trailing JavaScript whitespace removed: the input is whitespace, then the result, then whitespace, and the result neither starts nor ends with whitespace |
| `Text.TrimEmptyIff` | src/HorizontalDecks.tsx:88-90 | trimming yields the empty string exactly when the text is all whitespace |
| `Text.ToUpper` | src/EnchantmentCard.tsx:36 | same length; each lower-case ASCII letter becomes its capital (32 code points lower); every other character is kept |
| `Text.ToUpperAppend` | src/EnchantmentCard.tsx:42 | upper-casing a concatenation is the concatenation of the upper-cased parts |
| `Text.Split` | src/EnchantmentCard.tsx:44 | splitting gives at least one piece and no piece holds the separator |
| `Text.SplitCount` | src/EnchantmentCard.tsx:44 | a split has one more piece than the string has separators |
| `Text.JoinSplit` | src/EnchantmentCard.tsx:44 | joining the pieces of a split with the separator gives back the string |
| `Text.Join` | src/EnchantmentCard.tsx:64 | the joined text starts with the first piece, followed by the separator when more pieces come, and ends with the last piece; a single piece is returned as is |
| `Text.SplitJoin` | src/EnchantmentCard.tsx:64 | splitting separator-free pieces joined with the separator gives back the pieces |
| `Decks.DefaultDecks` | src/HorizontalDecks.tsx:47-54 | exactly four decks named Item, Equipment, Magic, Enchantments in that order, each with its fresh id, cover `DECK_COVER`, 280 empty slots, position 0 and an empty history |
| `Decks.DefaultDecksValid` | src/HorizontalDecks.tsx:47-54 | the default collection satisfies the collection invariant, and its ids are unique when the fresh ids are distinct |
| `Decks.Merge` | src/HorizontalDecks.tsx:121 | every field present in the changes is overwritten and every absent field is kept |
| `Decks.MergeFrame` | src/HorizontalDecks.tsx:121 | merging no changes is the identity; changes to position and history only leave the other fields alone; merging twice is merging once |
| `Decks.UpdateDeck` | src/HorizontalDecks.tsx:120-122 | length and order are kept, decks with another id are unchanged, the matching decks are merged, and an unknown id changes nothing |
| `Decks.PromptLabel` | src/HorizontalDecks.tsx:128 | a cancelled prompt gives the empty label, otherwise the answer |
| `Decks.SetSlot` | src/HorizontalDecks.tsx:131-133 | the slot holds the new card, every other slot and every other deck field is unchanged, and the slot count is kept |
| `Decks.AssignSlot` | src/HorizontalDecks.tsx:129-134 | only the decks with the given id change, each by exactly that slot, which gets a card with that deck's own fresh id, the image and the label; an unknown id leaves the collection unchanged |
| `Decks.AssignSlotValid` | src/HorizontalDecks.tsx:129-134 | assignment keeps every deck at 280 slots with its position and history in bounds, and keeps deck ids unique; with distinct fresh ids, decks sharing the id receive cards with distinct ids |
| `Decks.AssignSlotOverwrites` | src/HorizontalDecks.tsx:132 | assigning twice to one slot equals the second assignment alone: the slot is replaced whole, never merged |
| `Decks.Filled` | src/HorizontalDecks.tsx:107 | the candidate list is strictly increasing and holds exactly the positions of filled slots |
| `Decks.FilledEmpty` | src/HorizontalDecks.tsx:107 | a deck with no filled slot has no candidate |
| `Decks.FilledSingle` | src/HorizontalDecks.tsx:107 | a deck whose only filled slot is `p` has the single candidate `p` |
| `Decks.FindIndex` | src/HorizontalDecks.tsx:105 | the first deck with the id, or none exactly when no deck has it |
| `Decks.FindIndexUnique` | src/HorizontalDecks.tsx:105 | with unique ids the deck found is the one with that id |
| `Decks.Jump` | src/HorizontalDecks.tsx:105-112 | an unknown id or a deck without filled slots leaves the collection unchanged; otherwise only the matching decks change, taking the `k`-th candidate as position and the found deck's history with its old position pushed |
| `Decks.JumpValid` | src/HorizontalDecks.tsx:107-112 | a jump keeps every position within 0 and 280, every history entry in bounds, and ids unique |
| `Decks.JumpLandsOnFilled` | src/HorizontalDecks.tsx:107-112 | on a deck with a filled slot, the new position is in bounds and filled, the old position is appended to the history, and no other field changes |
| `Decks.JumpSingleFilled` | src/HorizontalDecks.tsx:107-112 | with exactly one filled slot the jump always selects it and appends the old position to the history |
| `Decks.JumpEmptyDeckNoop` | src/HorizontalDecks.tsx:106-112 | with no filled slot the jump leaves position, history and the whole collection unchanged |
| `Decks.PickAsWritten` | src/HorizontalDecks.tsx:108 | the source's array read gives a position exactly when the candidate list is non-empty, and `undefined` otherwise |
| `Decks.JumpAsWritten` | src/HorizontalDecks.tsx:107-112 | the unguarded jump pushes the old position, and stores a filled in-bounds position exactly when the deck has a filled slot, `undefined` otherwise |
| `Decks.PickAsWrittenUndefined` | src/HorizontalDecks.tsx:107-112 | on a deck with no filled slot the source's pick is `undefined`, and the jump stores it as the position while still pushing the old position onto the history |
| `Decks.DisplayedImage` | src/HorizontalDecks.tsx:171 | the deck shows its cover or the image of the filled slot at its position |
| `Decks.DisplayedLabel` | src/HorizontalDecks.tsx:173 | the deck shows "Card" or the non-empty label of the slot at its position |
| `Decks.DefaultDeckDisplay` | src/HorizontalDecks.tsx:171-173 | a fresh default deck shows the deck cover and the label "Card" |
| `Decks.AssignedCardDisplayed` | src/HorizontalDecks.tsx:171-173 | a card stored at the displayed position is shown, falling back to the cover or "Card" when its image or label is empty |
| `Decks.SpeakDecision` | src/HorizontalDecks.tsx:88-93 | speech fires exactly when the text is not all whitespace and its trimmed form differs from the last spoken text; what is spoken is the non-empty trimmed text |
| `Decks.SpokenNeverRepeats` | src/HorizontalDecks.tsx:88-93 | over any run of recognition results, no text is spoken twice in a row, the first differs from the text spoken before, and none is empty |
| `Decks.SameTextNotRepeated` | src/HorizontalDecks.tsx:90-92 | after speaking a text, a result trimming to the same text is not spoken and leaves the last spoken text as it is |
| `Decks.DeckStore.constructor` | src/HorizontalDecks.tsx:42-57 | first load restores the stored collection if present, otherwise builds the default one, and the store starts not begun with nothing spoken |
| `Decks.DeckStore.Persist` | src/HorizontalDecks.tsx:59-63 | once started, the snapshot is the whole collection; before that it is untouched |
| `Decks.DeckStore.Begin` | src/HorizontalDecks.tsx:143 | beginning sets the started flag and writes the whole collection to the snapshot |
| `Decks.DeckStore.DropImage` | src/HorizontalDecks.tsx:124-137 | the collection becomes the slot assignment with the fresh ids, the image and the prompt's label; the invariant holds and the snapshot follows |
| `Decks.DeckStore.LongPress` | src/HorizontalDecks.tsx:103-114 | the collection becomes the guarded jump; every position stays in bounds and the snapshot follows |
| `Decks.DeckStore.Scan` | src/HorizontalDecks.tsx:82-95 | the shown text is the trimmed result, speech and the last spoken text follow the speak decision, and the decks are untouched |
| `Decks.DeckStore.SpeechEnded` | src/HorizontalDecks.tsx:99 | the end of an utterance clears the speaking flag |
| `Decks.Reload` | src/HorizontalDecks.tsx:42-63 | a first load from a started store's snapshot yields exactly that store's collection |
| `Enchantment.Drawn` | src/EnchantmentCard.tsx:29-30 | the history becomes its first `min(index + 1, length)` entries plus the drawn text, and the position moves up by one |
| `Enchantment.Back` | src/EnchantmentCard.tsx:90 | the position moves down by one, floored at 0, and is unchanged at 0; the history is unchanged |
| `Enchantment.DrawnKeepsInvariant` | src/EnchantmentCard.tsx:29-30 | a draw keeps `index <= length`, keeps every entry up to the position, and keeps all entries in the catalog |
| `Enchantment.BackKeepsInvariant` | src/EnchantmentCard.tsx:90 | "Previous" keeps `index <= length` and the catalog property |
| `Enchantment.DrawnFromTip` | src/EnchantmentCard.tsx:29-30 | a draw from the end of the history appends the text and leaves the position equal to the new length |
| `Enchantment.DrawnFromInside` | src/EnchantmentCard.tsx:29-30 | a draw from inside the history drops the later entries and leaves the position on the new text |
| `Enchantment.DrawBackDraw` | src/EnchantmentCard.tsx:29-30 | draw, Previous, draw leaves a history whose length is the position plus one, with the second draw at the position |
| `Enchantment.RunKeepsInvariant` | src/EnchantmentCard.tsx:23-30 | any sequence of clicks from a valid state (the first render included) keeps `index <= length` and every entry in the catalog |
| `Enchantment.DrawsOnlyStayPastEnd` | src/EnchantmentCard.tsx:29-30 | repeated draws from the end keep the position one past the last entry |
| `Enchantment.CurrentRaw` | src/EnchantmentCard.tsx:35 | the entry at the position when there is a non-empty one, the fallback catalog entry otherwise; always a catalog entry when the history is |
| `Enchantment.Current` | src/EnchantmentCard.tsx:36 | the upper-cased entry at the position, or an upper-cased catalog entry; no lower-case letter remains |
| `Enchantment.Title` | src/EnchantmentCard.tsx:44 | the title is the displayed text up to its first line break, or the whole text when it has none |
| `Enchantment.EffectLines` | src/EnchantmentCard.tsx:44 | there is one effect line per line break in the displayed text, and none holds a line break |
| `Enchantment.TitleAndEffectLines` | src/EnchantmentCard.tsx:44 | the title and each effect line hold no line break, and joining them with line breaks gives back the displayed text |
| `Enchantment.EffectText` | src/EnchantmentCard.tsx:64 | the title, a line break and the effect text give back the displayed text; without a line break the effect text is empty |
| `Enchantment.FirstDrawNotShown` | src/EnchantmentCard.tsx:29-35 | after the first draw from a fresh view the display shows the fallback pick instead of the drawn text |
| `Enchantment.DrawnIntended` | src/EnchantmentCard.tsx:29-30 | the corrected draw truncates as the source does and leaves the position on the appended text |
| `Enchantment.DrawnIntendedShowsDraw` | src/EnchantmentCard.tsx:29-35 | the corrected draw always displays the drawn text, and it equals the source's draw whenever the position is on an entry |
| `Enchantment.ValueCatalog` | src/EnchantmentCard.tsx:40 | the `k`-th value is 100 + 25·k |
| `Enchantment.AmountCatalog` | src/EnchantmentCard.tsx:38-39 | the `k`-th dismantle amount is 5·(k + 1) |
| `Enchantment.Flavours` | src/EnchantmentCard.tsx:38-42 | the slot count is in {1, 2, 3}; the value is 100 + 25·k, between 100 and 500; each amount is in {5, 10, 15, 20, 25}; each material comes from its catalog; the category is the two upper-cased words joined by a space |
| `Enchantment.Navigator.constructor` | src/EnchantmentCard.tsx:23-24 | the view starts with an empty history at position 0 |
| `Enchantment.Navigator.NewCard` | src/EnchantmentCard.tsx:27-33 | the drawn text is the `k`-th catalog entry and the state becomes the draw step applied to the old state, keeping the invariant |
| `Enchantment.Navigator.Previous` | src/EnchantmentCard.tsx:90 | the state becomes the "Previous" step applied to the old state, keeping the invariant |
| `Enchantment.Navigator.Displayed` | src/EnchantmentCard.tsx:35-36 | the displayed text is an upper-cased catalog entry, and it is the upper-cased history entry whenever the position is on one |

## Left out

- Rendering, the flip animation, the 600 ms flip flag and the JSX layout: presentation only.
- Timers. The 2000 ms long-press timeout and its cancellation on release (`handleDeckPressEnd`, which changes no state) are not modelled, and neither is the 1500 ms recognition interval. A jump and a recognition pass are each one atomic step.
- Stale closures of React hooks. For example, the interval keeps an old `scanOCR` that sees an old `lastSpoken`, and the jump reads `decks` from its closure while merging into `prev`. The model has one explicit state. In the code, the running loop therefore compares every pass against the `lastSpoken` captured when scanning started, so it speaks the same text again on every pass, 1.5 s apart; `Decks.SpokenNeverRepeats` and the speak rule above describe the one-state model, in which each pass sees the text last spoken.
- The camera (`getUserMedia`, stopping tracks, the scanner toggle), canvas drawing, text recognition, speech synthesis and the "Read Again" button. These are device and library I/O. The recognised text is a parameter of `Scan`.
- `FileReader` and data URLs. The image is an opaque string, and the prompt's answer is a parameter.
- The JSON encoding of the snapshot and the storage API. The snapshot is the collection value itself, and an unparsable stored value is not modelled.
- `Math.random` and `uuidv4`. They become caller-supplied positions and ids.
- Decks.DeckStore.constructor: requires a stored collection to satisfy the collection invariant. The code restores any stored value unchecked, including one written after the unguarded jump stored an `undefined` position; the model's store never writes such a value (see `Decks.Reload`).
- Decks.AssignSlot: requires the position to be within the deck's slots. JavaScript would grow the array for a larger position, but the only caller passes a rendered slot position.
- Text.ToUpper: upper-casing covers ASCII letters only; other Unicode case mappings are not modelled.
- Enchantment.Current: inherits the ASCII-only upper-casing of `Text.ToUpper`.
- Enchantment.Flavours: the dismantle lines and the value are kept as numbers and names rather than the formatted strings ("5 Pieces of …"). Number-to-text formatting is not modelled.
- The "Send" button's alert, and `src/main.tsx`, which only mounts the components.

## Findings

| source | as written | input that shows it | evidently intended | confidence | as-written member | corrected member |
|---|---|---|---|---|---|---|
| src/HorizontalDecks.tsx:107-111 | the random pick reads an empty candidate list, gets `undefined` and stores it as `currentIndex`, after pushing the old position onto the history | a long press on a deck whose 280 slots are all empty | a jump on a deck without filled slots changes nothing | high, not executed | `Decks.PickAsWrittenUndefined` | `Decks.JumpEmptyDeckNoop` |
| src/EnchantmentCard.tsx:29-30 | the position starts at 0 on an empty history, so a draw from the end leaves it one past the last entry | the first "New Card" on a fresh view, drawing entry 0 with fallback pick 1 | the drawn card is the one displayed | medium, not executed | `Enchantment.FirstDrawNotShown` | `Enchantment.DrawnIntendedShowsDraw` |
