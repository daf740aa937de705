/**
 The entities the editors work on: games, decks, cards and states with
 their rules. Identities are server-assigned and `None` until a first save.
 */
module Api {
  import opened Common

  /** The front face of a card; numbers are whole numbers in this model. */
  datatype CardFront = CardFront(
    title: string,
    art: string,
    description: string,
    effect: string,
    cost: int,
    level: int,
    earning: int)

  /** The back face of a card. */
  datatype CardBack = CardBack(
    title: string,
    answers: string,
    effect: string,
    cost: int,
    level: int,
    earning: int)

  datatype Card = Card(
    id: Option<string>,
    deck: Option<string>,
    repetitions: int,
    front: CardFront,
    back: CardBack)

  /** A deck's front schema: which front fields its cards must fill in. */
  datatype DeckFront = DeckFront(
    title: bool,
    art: bool,
    description: bool,
    effect: bool,
    cost: bool,
    level: bool,
    earning: bool)

  /** A deck's back schema. */
  datatype DeckBack = DeckBack(
    title: bool,
    answers: bool,
    effect: bool,
    cost: bool,
    level: bool,
    earning: bool)

  datatype Deck = Deck(
    id: Option<string>,
    deckFront: DeckFront,
    deckBack: DeckBack,
    cards: seq<Card>)

  /** Rule records are opaque to the editors: they are stored, copied and
      compared, never inspected, so each carries an uninterpreted payload. */
  datatype StatementRule = StatementRule(payload: string)
  datatype ConditionalRule = ConditionalRule(payload: string)
  datatype Transition = Transition(payload: string)

  /** A node of the game-logic graph. */
  datatype State = State(
    id: Option<string>,
    game: Option<string>,
    color: string,
    purpose: string,
    stateLabel: string,  // the source's `label` (a Dafny keyword)
    conditionalRule: Option<ConditionalRule>,
    statementRules: seq<StatementRule>,
    transition: Option<Transition>,
    width: int,
    height: int,
    x: int,
    y: int)

  datatype Game = Game(
    id: Option<string>,
    decks: seq<Deck>,
    states: seq<State>)
}
