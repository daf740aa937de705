# Card-game editor: card and state editing logic

This project models the editing logic of two pages of a browser-based card-game designer:

- **The card editor** (`cards.component.ts`). A game owns decks, and each deck owns cards. The user picks a deck and a card, or builds a draft. The draft is validated against the deck's required-field flags and then created or updated through the remote API. Cards can also be deleted, or a new draft copied from an existing card.
- **The state editor** (`state.component.ts`). A game owns the states of its rule graph. The user picks or drafts a state and edits its rules: statement rules, a conditional rule or a transition, where the last two exclude each other. The state is validated and then created or updated through the remote API. The page also keeps a set of form-visibility flags.

Every handler is modelled as a pure function over an immutable editor record:

- `CardsEditor.CardEditor` for the card page;
- `StateEditor.StateEditor` for the state page.

A handler that calls the API takes the call's answer as an input (`Common.ApiOutcome`):

- `Ok(value)` is the success callback;
- `Err(messages)` is the error callback, with its messages already normalised to strings.

A handler that raises alerts returns a `Common.Step` holding the next record and the alerts, in order. The global loading indicator is the record's `loading` field.

Modules:

- `Common` — option, API outcome, alerts.
- `Api` — the card, deck, state and game records.
- `Sequences` — JavaScript's one-argument `splice` and index `filter`.
- `CardValidation` — `isCardValid`, with its error list specified against a per-field violation predicate.
- `CardsEditor` — the card page's handlers.
- `Visibility` — the state page's form flags.
- `StateRules` — `isStateValid` and `mockNewState`.
- `StateEditor` — the state page's handlers.

On the card page, `deckSelected` is always an alias of `game.decks[deckIndex]`, so it is derived rather than stored. `onEdit(index)` on the card page only calls `selectCard(index)`, so `CardsEditor.SelectCard` models both.

Two behaviours of the code are modelled as written:

- `onDelete` calls `splice(index)` with a single argument. This cuts the card list at `index` rather than removing one card.
- `saveState` raises the loading indicator before validating. On the validation-failure path it never lowers it.

## Model

| member | source | states |
|---|---|---|
| CardValidation.IsCardValid | src/app/pages/games/cards/cards.component.ts:113-141 | the card passes (empty list) exactly when it commits no error; the full contract of its list is `CardValidation.IsCardValidReportsViolations` |
| CardValidation.RepetitionErrors | src/app/pages/games/cards/cards.component.ts:116-122 | the upper-bound error is present iff repetitions > 30, the lower-bound error iff repetitions < 1; both precede every field error, in that order |
| CardValidation.IsCardValidReportsViolations | src/app/pages/games/cards/cards.component.ts:113-141 | a message is in the validator's list exactly when the error it names is violated by the card against the deck; every listed message names a violation; messages come in check order (repetitions, then front keys, then back keys); this is the contract of `CardValidation.IsCardValid` |
| CardValidation.CardErrorsSpec | src/app/pages/games/cards/cards.component.ts:113-141 | the error list holds exactly the violated errors, in check order |
| CardValidation.OrderedListUnique | src/app/pages/games/cards/cards.component.ts:113-141 | two error lists in check order with the same members are equal, so the validator's output is fixed by which errors the card commits |
| CardValidation.FieldErrors | src/app/pages/games/cards/cards.component.ts:124-138 | from a key position onwards, the field errors of one face are exactly the required fields with falsy values, in key order |
| CardValidation.RepetitionsMessages | src/app/pages/games/cards/cards.component.ts:116-122 | "Card repetitions must be up to 30" is listed iff repetitions > 30, "… greater than 0" iff repetitions < 1, and never both |
| CardValidation.FrontFieldMessage | src/app/pages/games/cards/cards.component.ts:124-130 | for a front key other than art, "Front's k is invalid" is listed iff the deck flags k on its front and the value is "" or 0 |
| CardValidation.FrontArtNeverReported | src/app/pages/games/cards/cards.component.ts:125 | the front's art is never reported, whatever the deck requires |
| CardValidation.BackFieldMessage | src/app/pages/games/cards/cards.component.ts:132-138 | "Back's k is invalid" is listed iff the deck flags k on its back and the value is "" or 0 |
| CardValidation.UnflaggedFieldNeverReported | src/app/pages/games/cards/cards.component.ts:124-138 | a field the deck does not flag as required never produces a message |
| CardValidation.MessageInjective | src/app/pages/games/cards/cards.component.ts:116-136 | two different errors never produce the same message text |
| CardValidation.SingleViolation | src/app/pages/games/cards/cards.component.ts:113-141 | when exactly one error is violated, the validator returns exactly that one message |
| CardValidation.SameContentSameMessages | src/app/pages/games/cards/cards.component.ts:113-141 | the validator reads only repetitions and the face fields, never the card's id or deck |
| CardValidation.ScenarioEmptyRequiredTitle | src/app/pages/games/cards/cards.component.ts:113-141 | with only the front title required and repetitions in 1..30, an empty title yields exactly ["Front's title is invalid"] |
| CardsEditor.MockNewCard | src/app/pages/games/cards/cards.component.ts:86-111 | the draft has no id and the selected deck's id; a negative index gives the blank card (1 repetition, every field "" or 0); an index copies repetitions and every face field of that card |
| CardsEditor.BlankDraftsAgree | src/app/pages/games/cards/cards.component.ts:86-111 | any two blank drafts of the same editor are equal |
| CardsEditor.CopiedDraftValidatesLikeSource | src/app/pages/games/cards/cards.component.ts:86-111 | a copied draft gets exactly the same validation messages as the card it copies |
| CardsEditor.SelectCard | src/app/pages/games/cards/cards.component.ts:75-84 | the card index becomes `index`; a card is selected iff the index is non-negative; then the draft is that card, otherwise a blank draft; the editor stays consistent |
| CardsEditor.SelectDeck | src/app/pages/games/cards/cards.component.ts:65-73 | an index past the last deck leaves the editor unchanged and raises exactly the one danger alert; any other index becomes the deck index, after the card selection is reset if a deck was selected before; that reset draft carries the previous deck's id |
| CardsEditor.ClearCardRequest | src/app/pages/games/cards/cards.component.ts:48-50 | the draft becomes a blank card for the selected deck and nothing else changes |
| CardsEditor.SaveNewCard | src/app/pages/games/cards/cards.component.ts:150-167 | a created card is appended to the selected deck and the selection is reset to a blank draft for that deck; on failure the cards are unchanged, the messages are raised as danger alerts and the draft is kept as sent, with the selected deck's id written into it; no other deck changes |
| CardsEditor.SaveExistingCard | src/app/pages/games/cards/cards.component.ts:168-183 | on success the local draft, not the answer, replaces the card at the card index, the length and every other card are kept, and the selection is reset to a blank draft for that deck; on failure nothing but the loading flag changes |
| CardsEditor.SaveCard | src/app/pages/games/cards/cards.component.ts:143-184 | an invalid draft changes nothing and raises its messages as danger alerts; a valid one goes to the create branch for a negative card index and to the update branch otherwise |
| CardsEditor.SaveCardKeepsOtherDecks | src/app/pages/games/cards/cards.component.ts:143-184 | whatever the answer, only the selected deck's card list can change, and a consistent editor stays consistent |
| CardsEditor.InvalidDraftIgnoresOutcome | src/app/pages/games/cards/cards.component.ts:143-148 | for an invalid draft the API's answer makes no difference: no call is made |
| CardsEditor.UpdateThenSelectRoundTrip | src/app/pages/games/cards/cards.component.ts:169-173 | after a successful update, selecting the same index gives back the draft that was saved |
| CardsEditor.CreateThenSelectRoundTrip | src/app/pages/games/cards/cards.component.ts:156-161 | after a successful create, the deck has one more card and selecting the old length gives back the API's card |
| CardsEditor.OnDelete | src/app/pages/games/cards/cards.component.ts:190-195 | the card list becomes its prefix up to the splice start (index clamped to the length, a negative index counting from the end); the selection is dropped and the draft is blank |
| CardsEditor.OnDeleteDropsTail | src/app/pages/games/cards/cards.component.ts:193 | deleting an in-range index leaves exactly `index` cards: that card and every card after it are gone |
| CardsEditor.OnCreateFrom | src/app/pages/games/cards/cards.component.ts:197-201 | nothing is selected and the draft has no id, copying the card at `index` (blank for a negative index) |
| Sequences.SpliceFrom | src/app/pages/games/cards/cards.component.ts:193 | the one-argument splice keeps a prefix of the list, whose length is the splice start |
| Sequences.RemoveAt | src/app/pages/games/state/state.component.ts:146 | filtering out position `index` removes exactly that element for an index in range, and changes nothing otherwise |
| StateRules.IsStateValid | src/app/pages/games/state/state.component.ts:64-80 | no state gives exactly ["No data to save"]; otherwise the result is null iff the state has a transition or a conditional rule and is not protected; the missing-rule message is listed iff both rules are unset, the protection message iff the label is "Game Start" or "Game Over", in that order, and nothing else and nothing twice |
| StateRules.ProtectedStatesAlwaysRefused | src/app/pages/games/state/state.component.ts:75-77 | a state labelled "Game Start" or "Game Over" is refused with the protection message, whatever its rules |
| StateRules.ValidationReadsContent | src/app/pages/games/state/state.component.ts:64-80 | the validator reads only a state's content: label, purpose and rules |
| StateRules.MockNewState | src/app/pages/games/state/state.component.ts:157-173 | the draft is 160×80 at (30,30), coloured "#dedede", with no id and the game's id; an index in range copies purpose, label and all rules from that state, and any other index gives empty text, no rules and no statement rules |
| StateRules.BlankDraftIsRefused | src/app/pages/games/state/state.component.ts:157-173 | an untouched blank draft is refused with exactly the missing-rule message |
| StateRules.CopiedDraftValidatesLikeSource | src/app/pages/games/state/state.component.ts:157-173 | a copied draft is judged exactly like the state it copies |
| Visibility.HideAllRules | src/app/pages/games/state/state.component.ts:204-209 | no rule form is open and the page-level flags are untouched |
| Visibility.ShowRule | src/app/pages/games/state/state.component.ts:177-195 | exactly the requested rule form is open, and the page-level flags are untouched |
| Visibility.HideAll | src/app/pages/games/state/state.component.ts:197-202 | every rule form and every page-level flag is off |
| Visibility.ShowRuleLastWins | src/app/pages/games/state/state.component.ts:177-195 | opening two rule forms in a row leaves only the second open |
| Visibility.ShowRuleIsDetermined | src/app/pages/games/state/state.component.ts:177-195 | the flags after opening a form are the only flags with the old page flags and that single rule form open |
| StateEditor.OnEdit | src/app/pages/games/state/state.component.ts:46-49 | the state being edited is the one at `index` (absent outside the list), the state index becomes `index`, and nothing else changes |
| StateEditor.OnDelete | src/app/pages/games/state/state.component.ts:51-54 | the delete popup opens on the state at `index`; the state index, the game and every other flag are kept |
| StateEditor.ClearRequest | src/app/pages/games/state/state.component.ts:211-214 | the state index is -1 and the draft is the blank state draft; the game and the flags are kept |
| StateEditor.Clear | src/app/pages/games/state/state.component.ts:216-219 | as `clearRequest`, and every form flag is off |
| StateEditor.OnSaveStatementRule | src/app/pages/games/state/state.component.ts:129-132 | exactly the one rule is appended to the selected state's statement rules; nothing else changes; one success alert |
| StateEditor.OnDeleteStatementRule | src/app/pages/games/state/state.component.ts:145-148 | an in-range position is removed and the rest keep their order; any other index changes nothing |
| StateEditor.StatementRuleRoundTrip | src/app/pages/games/state/state.component.ts:129-148 | deleting the statement rule just appended restores the editor |
| StateEditor.OnSaveConditionalRule | src/app/pages/games/state/state.component.ts:134-138 | the conditional rule is set and the transition cleared, so the two are never both set; nothing else changes |
| StateEditor.OnSaveTransitionRule | src/app/pages/games/state/state.component.ts:150-153 | the conditional rule is cleared, so the transition and the conditional rule are never both set; nothing else changes |
| StateEditor.ConditionalRuleSatisfiesValidator | src/app/pages/games/state/state.component.ts:134-138 | after a conditional rule is saved, an unprotected state passes validation |
| StateEditor.TransitionRuleAndValidator | src/app/pages/games/state/state.component.ts:150-153 | after the transition handler, the state passes validation iff it has a transition and is not protected |
| StateEditor.SaveState | src/app/pages/games/state/state.component.ts:82-127 | a refused state leaves everything unchanged except loading, which stays on, and raises the messages as danger alerts; an empty answer leaves loading on; a failure clears loading, keeps the states and raises the messages; a returned state replaces the one at the state index (same length, others kept) or is appended, and then the draft is cleared and loading is off |
| StateEditor.RefusedStateIgnoresOutcome | src/app/pages/games/state/state.component.ts:83-89 | for a refused state the API's answer makes no difference: no call is made |
| StateEditor.SaveStateChangesOneEntry | src/app/pages/games/state/state.component.ts:91-126 | the states list is unchanged, or changed by exactly the one replacement or append the answer calls for |
| StateEditor.UpdateThenEditRoundTrip | src/app/pages/games/state/state.component.ts:91-100 | after a successful update, editing the same index gives back the state the API returned |
| StateEditor.CreateThenEditRoundTrip | src/app/pages/games/state/state.component.ts:111-118 | after a successful create, editing the old length gives back the state the API returned |
| StateEditor.ScenarioCreateStateWithTransition | src/app/pages/games/state/state.component.ts:108-125 | creating a state that has a transition grows the list by the returned state; a failure keeps the list and raises the error as one danger alert |

## Left out

- The HTTP services and their observables are left out: subscription, async timing, and the order in which callbacks run. Each API call is replaced by its answer, passed in as an input.
- `getErrors` is not part of this model. The error callback's messages are taken as already-normalised strings.
- The global alert and loading services are left out as services. They appear only as the `alerts` output and the `loading` field.
- Angular's lifecycle is left out: `ngOnInit`, `@ViewChild`, the initial `getGame` subscription, and `initCards`/`pullCards` with its try/catch. They load data and do not edit it.
- `console.log` calls are left out: they have no effect on state.
- `cardWidth` is left out: it is floating point and depends on the browser window.
- Object aliasing is left out. Several values can be mutated through another name:
  - `mockNewState` shares the source's `statementRules` array;
  - `onEdit` on the state page shares the state object with the list;
  - `selectCard` shares the card object with the deck.
  Immutable values cannot express such sharing, so each handler changes only the record it is given.
- `onSaveEffectRule` is left out: it only raises "Rule added to state", because its mutation is commented out.
- `deleteState` is a stub whose only effect is `clearRequest`, which `StateEditor.ClearRequest` models.
- The `isBack` and `isConditionalRule` flags are left out: no modelled handler reads or writes them.
- The home and footer components are left out: they hold no editing logic.
- Rule records are modelled as opaque payloads: the editors never look inside them.
- Numbers are modelled as integers. Floating point and `NaN` are excluded.
- Key order: `Object.keys` on a card face is taken to be the declared field order that `mockNewCard` uses.
- Paths where the source throws a `TypeError` on `undefined` are preconditions rather than modelled outcomes:
  - `saveCard`, `mockNewCard` and `onDelete` with no deck at `deckIndex`;
  - `selectDeck` before a game is loaded;
  - the rule handlers with no selected state.
- `CardsEditor.SelectCard` requires an index inside the deck. The source would store `undefined` as the draft for an index outside the deck, and the model does not cover that case.
- `StateEditor.SaveState` requires a state index inside the list when it updates. The source would write past the end and leave a sparse array, and the model does not cover that case.
