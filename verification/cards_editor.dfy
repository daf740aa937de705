/**
 The card editor: choosing a deck and a card, building drafts, saving a
 draft through the remote API and deleting. Each handler is a function from
 the editor record (and, for a save, the API's answer) to the next record.

 The source keeps `deckSelected` as an alias of `game.decks[deckIndex]`, so
 here it is not stored but read through `SelectedDeck`.
 */
module CardsEditor {
  import opened Common
  import opened Api
  import opened Sequences
  import opened CardValidation

  datatype CardEditor = CardEditor(
    game: Option<Game>,
    deckIndex: int,
    cardIndex: int,
    cardSelected: Card,
    isCardSelected: bool,
    loading: bool)

  /** `game.decks[deckIndex]` exists. */
  predicate HasDeck(e: CardEditor)
  {
    e.game.Some? && 0 <= e.deckIndex < |e.game.value.decks|
  }

  function SelectedDeck(e: CardEditor): Deck
    requires HasDeck(e)
  {
    e.game.value.decks[e.deckIndex]
  }

  function Cards(e: CardEditor): seq<Card>
    requires HasDeck(e)
  {
    SelectedDeck(e).cards
  }

  /** `mockNewCard` can read what it needs: with a game loaded it reads
      `game.decks[deckIndex]._id`, which fails when there is no such deck. */
  predicate CanMock(e: CardEditor)
  {
    e.game.Some? ==> HasDeck(e)
  }

  /** The deck reference a new draft gets. */
  function DraftDeck(e: CardEditor): Option<string>
    requires CanMock(e)
  {
    if e.game.Some? then SelectedDeck(e).id else None
  }

  /** The card has no identity, one repetition and every field empty or zero. */
  ghost predicate IsBlank(c: Card)
  {
    && c.id.None?
    && c.repetitions == 1
    && forall side, k :: OnFace(side, k) ==> Falsy(Value(c, side, k))
  }

  /** `c` carries the editable content of `source`: its repetitions and every
      field of both faces. */
  ghost predicate CopiesContent(c: Card, source: Card)
  {
    && c.repetitions == source.repetitions
    && forall side, k :: OnFace(side, k) ==> Value(c, side, k) == Value(source, side, k)
  }

  /** The editor's own consistency: a card is selected exactly when the card
      index is non-negative, and then it indexes a card of the selected deck. */
  ghost predicate Wf(e: CardEditor)
  {
    && (e.isCardSelected <==> e.cardIndex >= 0)
    && (e.cardIndex >= 0 ==> HasDeck(e) && e.cardIndex < |Cards(e)|)
  }

  /** `mockNewCard(cardIndex)`: a blank draft, or, for a card index, a draft
      copying that card of the selected deck; either way without identity. */
  function MockNewCard(e: CardEditor, cardIndex: int): (c: Card)
    requires CanMock(e)
    requires cardIndex >= 0 ==> HasDeck(e) && cardIndex < |Cards(e)|
    ensures c.id == None
    ensures c.deck == DraftDeck(e)
    ensures cardIndex < 0 ==> IsBlank(c)
    ensures cardIndex >= 0 ==> CopiesContent(c, Cards(e)[cardIndex])
  {
    if cardIndex < 0 then
      Card(None, DraftDeck(e), 1, CardFront("", "", "", "", 0, 0, 0), CardBack("", "", "", 0, 0, 0))
    else
      var source := Cards(e)[cardIndex];
      Card(None, DraftDeck(e), source.repetitions, source.front, source.back)
  }

  /** Two blank cards for the same deck are the same card: `IsBlank` leaves
      nothing open, so every blank draft equals every other. */
  lemma BlankIsUnique(c1: Card, c2: Card)
    requires IsBlank(c1) && IsBlank(c2) && c1.deck == c2.deck
    ensures c1 == c2
  {
    forall k | OnFace(Front, k)
      ensures Value(c1, Front, k) == Value(c2, Front, k)
    {
      assert Falsy(Value(c1, Front, k)) && Falsy(Value(c2, Front, k));
    }
    forall k | OnFace(Back, k)
      ensures Value(c1, Back, k) == Value(c2, Back, k)
    {
      assert Falsy(Value(c1, Back, k)) && Falsy(Value(c2, Back, k));
    }
    assert Value(c1, Front, Title) == Value(c2, Front, Title);
    assert Value(c1, Front, Art) == Value(c2, Front, Art);
    assert Value(c1, Front, Description) == Value(c2, Front, Description);
    assert Value(c1, Front, Effect) == Value(c2, Front, Effect);
    assert Value(c1, Front, Cost) == Value(c2, Front, Cost);
    assert Value(c1, Front, Level) == Value(c2, Front, Level);
    assert Value(c1, Front, Earning) == Value(c2, Front, Earning);
    assert Value(c1, Back, Title) == Value(c2, Back, Title);
    assert Value(c1, Back, Answers) == Value(c2, Back, Answers);
    assert Value(c1, Back, Effect) == Value(c2, Back, Effect);
    assert Value(c1, Back, Cost) == Value(c2, Back, Cost);
    assert Value(c1, Back, Level) == Value(c2, Back, Level);
    assert Value(c1, Back, Earning) == Value(c2, Back, Earning);
  }

  /** Any two blank drafts of one editor are equal, whichever negative index built them. */
  lemma BlankDraftsAgree(e: CardEditor, i: int, j: int)
    requires CanMock(e) && i < 0 && j < 0
    ensures MockNewCard(e, i) == MockNewCard(e, j)
  {
    BlankIsUnique(MockNewCard(e, i), MockNewCard(e, j));
  }

  /** A draft copied from a card is validated exactly like that card. */
  lemma CopiedDraftValidatesLikeSource(e: CardEditor, i: int, d: Deck)
    requires HasDeck(e) && 0 <= i < |Cards(e)|
    ensures IsCardValid(MockNewCard(e, i), d) == IsCardValid(Cards(e)[i], d)
  {
    SameContentSameMessages(MockNewCard(e, i), Cards(e)[i], d);
  }

  /** `selectCard(index)`: a non-negative index selects that card of the
      selected deck, a negative one drops the selection for a blank draft. */
  function SelectCard(e: CardEditor, index: int): (r: CardEditor)
    requires index < 0 ==> CanMock(e)
    requires index >= 0 ==> HasDeck(e) && index < |Cards(e)|
    ensures r.cardIndex == index
    ensures r.isCardSelected <==> index >= 0
    ensures index >= 0 ==> r.cardSelected == Cards(e)[index]
    ensures index < 0 ==> IsBlank(r.cardSelected) && r.cardSelected.deck == DraftDeck(e)
    ensures r.game == e.game && r.deckIndex == e.deckIndex && r.loading == e.loading
    ensures Wf(r)
  {
    if index < 0 then
      e.(cardIndex := index, isCardSelected := false, cardSelected := MockNewCard(e, -1))
    else
      e.(cardIndex := index, isCardSelected := true, cardSelected := Cards(e)[index])
  }

  const InvalidDeckAlert := Alert("Invalid card index. Please, reload the page", Danger)

  /** `selectDeck(index)`: an index past the last deck only raises an alert;
      any other index becomes the deck index, after dropping the card
      selection if a deck was selected before. The blank draft is built
      before the index moves, so it carries the previous deck's id. */
  function SelectDeck(e: CardEditor, index: int): (r: Step<CardEditor>)
    requires e.game.Some?
    ensures index >= |e.game.value.decks| ==> r.editor == e && r.alerts == [InvalidDeckAlert]
    ensures index < |e.game.value.decks| ==>
      && r.alerts == []
      && r.editor.game == e.game
      && r.editor.deckIndex == index
      && r.editor.loading == e.loading
      && (HasDeck(r.editor) <==> 0 <= index)
    ensures index < |e.game.value.decks| && HasDeck(e) ==>
      && r.editor.cardIndex == -1
      && !r.editor.isCardSelected
      && IsBlank(r.editor.cardSelected)
      && r.editor.cardSelected.deck == SelectedDeck(e).id
    ensures index < |e.game.value.decks| && !HasDeck(e) ==>
      && r.editor.cardIndex == e.cardIndex
      && r.editor.isCardSelected == e.isCardSelected
      && r.editor.cardSelected == e.cardSelected
    ensures Wf(e) ==> Wf(r.editor)
  {
    if index >= |e.game.value.decks| then
      Step(e, [InvalidDeckAlert])
    else
      var cleared := if HasDeck(e) then SelectCard(e, -1) else e;
      Step(cleared.(deckIndex := index), [])
  }

  /** `clearCardRequest()`: the draft becomes a blank card. */
  function ClearCardRequest(e: CardEditor): (r: CardEditor)
    requires CanMock(e)
    ensures IsBlank(r.cardSelected) && r.cardSelected.deck == DraftDeck(e)
    ensures r.(cardSelected := e.cardSelected) == e
  {
    e.(cardSelected := MockNewCard(e, -1))
  }

  /** `g` and `g2` differ at most in the card list of deck `di`. */
  ghost predicate OnlyCardsOf(g: Game, g2: Game, di: int)
  {
    && g2.id == g.id
    && g2.states == g.states
    && |g2.decks| == |g.decks|
    && (forall j :: 0 <= j < |g.decks| && j != di ==> g2.decks[j] == g.decks[j])
    && (0 <= di < |g.decks| ==>
        && g2.decks[di].id == g.decks[di].id
        && g2.decks[di].deckFront == g.decks[di].deckFront
        && g2.decks[di].deckBack == g.decks[di].deckBack)
  }

  /** The game with the card list of deck `di` replaced. */
  function WithCards(g: Game, di: int, cards: seq<Card>): (r: Game)
    requires 0 <= di < |g.decks|
    ensures OnlyCardsOf(g, r, di)
    ensures r.decks[di].cards == cards
  {
    g.(decks := g.decks[di := g.decks[di].(cards := cards)])
  }

  /** The draft passes validation against the selected deck. */
  predicate DraftIsValid(e: CardEditor)
    requires HasDeck(e)
  {
    |IsCardValid(e.cardSelected, SelectedDeck(e))| == 0
  }

  const SavedAlert := Alert("Saved", Success)

  /** The create branch of `saveCard()`: the draft is sent with the selected
      deck's id; the returned card is appended and the selection reset, or
      the error messages are raised. */
  function SaveNewCard(e: CardEditor, outcome: ApiOutcome<Card>): (r: Step<CardEditor>)
    requires HasDeck(e) && e.cardIndex < 0
    ensures HasDeck(r.editor) && r.editor.deckIndex == e.deckIndex && !r.editor.loading
    ensures OnlyCardsOf(e.game.value, r.editor.game.value, e.deckIndex)
    ensures outcome.Ok? ==>
      && Cards(r.editor) == Cards(e) + [outcome.value]
      && r.alerts == [SavedAlert]
      && r.editor.cardIndex == -1
      && !r.editor.isCardSelected
      && IsBlank(r.editor.cardSelected)
      && r.editor.cardSelected.deck == SelectedDeck(e).id
    ensures outcome.Err? ==>
      && Cards(r.editor) == Cards(e)
      && r.alerts == DangerAlerts(outcome.errors)
      && r.editor.cardIndex == e.cardIndex
      && r.editor.isCardSelected == e.isCardSelected
      && r.editor.cardSelected == e.cardSelected.(deck := SelectedDeck(e).id)
    ensures Wf(e) ==> Wf(r.editor)
  {
    var sent := e.cardSelected.(deck := SelectedDeck(e).id);
    match outcome
    case Ok(card) =>
      var stored := e.(game := Some(WithCards(e.game.value, e.deckIndex, Cards(e) + [card])));
      Step(SelectCard(stored, -1).(loading := false), [SavedAlert])
    case Err(messages) =>
      Step(e.(cardSelected := sent, loading := false), DangerAlerts(messages))
  }

  /** The update branch of `saveCard()`: on success the local draft, not the
      returned card, is stored at the card index and the selection reset. */
  function SaveExistingCard(e: CardEditor, outcome: ApiOutcome<Card>): (r: Step<CardEditor>)
    requires HasDeck(e) && 0 <= e.cardIndex < |Cards(e)|
    ensures HasDeck(r.editor) && r.editor.deckIndex == e.deckIndex && !r.editor.loading
    ensures OnlyCardsOf(e.game.value, r.editor.game.value, e.deckIndex)
    ensures outcome.Ok? ==>
      && |Cards(r.editor)| == |Cards(e)|
      && Cards(r.editor)[e.cardIndex] == e.cardSelected
      && (forall j :: 0 <= j < |Cards(e)| && j != e.cardIndex ==> Cards(r.editor)[j] == Cards(e)[j])
      && r.alerts == [SavedAlert]
      && r.editor.cardIndex == -1
      && !r.editor.isCardSelected
      && IsBlank(r.editor.cardSelected)
      && r.editor.cardSelected.deck == SelectedDeck(e).id
    ensures outcome.Err? ==>
      && Cards(r.editor) == Cards(e)
      && r.alerts == DangerAlerts(outcome.errors)
      && r.editor.cardIndex == e.cardIndex
      && r.editor.isCardSelected == e.isCardSelected
      && r.editor.cardSelected == e.cardSelected
    ensures Wf(e) ==> Wf(r.editor)
  {
    match outcome
    case Ok(_) =>
      var stored := e.(game := Some(WithCards(e.game.value, e.deckIndex, Cards(e)[e.cardIndex := e.cardSelected])));
      Step(SelectCard(stored, -1).(loading := false), [SavedAlert])
    case Err(messages) =>
      Step(e.(loading := false), DangerAlerts(messages))
  }

  /** `saveCard()`, with the answer of `createCard` (for a new draft) or
      `updateCard` (for a selected card) given as `outcome`. A draft that
      fails validation only raises its messages. */
  function SaveCard(e: CardEditor, outcome: ApiOutcome<Card>): (r: Step<CardEditor>)
    requires HasDeck(e) && e.cardIndex < |Cards(e)|
    ensures !DraftIsValid(e) ==>
      r.editor == e && r.alerts == DangerAlerts(IsCardValid(e.cardSelected, SelectedDeck(e)))
    ensures DraftIsValid(e) && e.cardIndex < 0 ==> r == SaveNewCard(e, outcome)
    ensures DraftIsValid(e) && e.cardIndex >= 0 ==> r == SaveExistingCard(e, outcome)
  {
    var errors := IsCardValid(e.cardSelected, SelectedDeck(e));
    if |errors| > 0 then
      Step(e, DangerAlerts(errors))
    else if e.cardIndex < 0 then
      SaveNewCard(e, outcome)
    else
      SaveExistingCard(e, outcome)
  }

  /** Whatever happens, only the selected deck's card list can change, and
      the editor stays consistent. */
  lemma SaveCardKeepsOtherDecks(e: CardEditor, outcome: ApiOutcome<Card>)
    requires HasDeck(e) && e.cardIndex < |Cards(e)|
    ensures var r := SaveCard(e, outcome).editor;
      HasDeck(r) && OnlyCardsOf(e.game.value, r.game.value, e.deckIndex)
    ensures Wf(e) ==> Wf(SaveCard(e, outcome).editor)
  {
  }

  /** A draft that fails validation never reaches the API: the answer is not consulted. */
  lemma InvalidDraftIgnoresOutcome(e: CardEditor, o1: ApiOutcome<Card>, o2: ApiOutcome<Card>)
    requires HasDeck(e) && e.cardIndex < |Cards(e)|
    requires !DraftIsValid(e)
    ensures SaveCard(e, o1) == SaveCard(e, o2)
  {
  }

  /** After a successful update, selecting the same index again brings back
      exactly the card that was saved. */
  lemma UpdateThenSelectRoundTrip(e: CardEditor, answer: Card)
    requires HasDeck(e) && 0 <= e.cardIndex < |Cards(e)|
    requires DraftIsValid(e)
    ensures SelectCard(SaveCard(e, Ok(answer)).editor, e.cardIndex).cardSelected == e.cardSelected
  {
  }

  /** After a successful create, the answer is the deck's last card, and
      selecting it brings it back. */
  lemma CreateThenSelectRoundTrip(e: CardEditor, answer: Card)
    requires HasDeck(e) && e.cardIndex < 0
    requires DraftIsValid(e)
    ensures var after := SaveCard(e, Ok(answer)).editor;
      |Cards(after)| == |Cards(e)| + 1 && SelectCard(after, |Cards(e)|).cardSelected == answer
  {
  }

  /** `onDelete(index)`: drops the selection, runs the one-argument
      `cards.splice(index)`, which cuts the list at `index`, and resets the draft. */
  function OnDelete(e: CardEditor, index: int): (r: CardEditor)
    requires HasDeck(e)
    ensures HasDeck(r) && r.deckIndex == e.deckIndex
    ensures OnlyCardsOf(e.game.value, r.game.value, e.deckIndex)
    ensures 0 <= index ==> Cards(r) == Cards(e)[..if index < |Cards(e)| then index else |Cards(e)|]
    ensures index < 0 ==> Cards(r) == Cards(e)[..if |Cards(e)| + index < 0 then 0 else |Cards(e)| + index]
    ensures r.cardIndex == -1 && !r.isCardSelected
    ensures IsBlank(r.cardSelected) && r.cardSelected.deck == SelectedDeck(e).id
    ensures r.loading == e.loading
    ensures Wf(r)
  {
    var cut := e.(isCardSelected := false, cardIndex := -1,
                  game := Some(WithCards(e.game.value, e.deckIndex, SpliceFrom(Cards(e), index))));
    cut.(cardSelected := MockNewCard(cut, -1))
  }

  /** Deleting a card in range removes it and every card after it, not just the one. */
  lemma OnDeleteDropsTail(e: CardEditor, index: int)
    requires HasDeck(e) && 0 <= index < |Cards(e)|
    ensures |Cards(OnDelete(e, index))| == index
  {
  }

  /** `onCreateFrom(index)`: a new, unselected draft copying card `index`. */
  function OnCreateFrom(e: CardEditor, index: int): (r: CardEditor)
    requires CanMock(e)
    requires index >= 0 ==> HasDeck(e) && index < |Cards(e)|
    ensures r.cardIndex == -1 && !r.isCardSelected
    ensures r.cardSelected.id.None? && r.cardSelected.deck == DraftDeck(e)
    ensures index >= 0 ==> CopiesContent(r.cardSelected, Cards(e)[index])
    ensures index < 0 ==> IsBlank(r.cardSelected)
    ensures r.game == e.game && r.deckIndex == e.deckIndex && r.loading == e.loading
    ensures Wf(r)
  {
    e.(isCardSelected := false, cardIndex := -1, cardSelected := MockNewCard(e, index))
  }
}
