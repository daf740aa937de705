/**
 The card validator of the card editor (`isCardValid`): the repetitions
 bounds, then every front field, then every back field, each checked against
 the selected deck's required-field flags. Errors are a datatype here and are
 rendered to the source's strings by `Message`.
 */
module CardValidation {
  import opened Api

  datatype Side = Front | Back

  /** The union of the field names of both card faces. */
  datatype FieldKey = Title | Art | Description | Answers | Effect | Cost | Level | Earning

  /** A field's value as JavaScript sees it: a string or a number. */
  datatype FieldValue = Text(text: string) | Number(number: int)

  /** The keys of a face in `Object.keys` order, which is the order the card
      editor writes them in when it builds a card. */
  function Keys(side: Side): seq<FieldKey>
  {
    match side
    case Front => [Title, Art, Description, Effect, Cost, Level, Earning]
    case Back => [Title, Answers, Effect, Cost, Level, Earning]
  }

  /** The position of `k` among the keys of `side`, or -1 if that face has no such field. */
  function Position(side: Side, k: FieldKey): int
  {
    match (side, k)
    case (Front, Title) => 0
    case (Front, Art) => 1
    case (Front, Description) => 2
    case (Front, Effect) => 3
    case (Front, Cost) => 4
    case (Front, Level) => 5
    case (Front, Earning) => 6
    case (Back, Title) => 0
    case (Back, Answers) => 1
    case (Back, Effect) => 2
    case (Back, Cost) => 3
    case (Back, Level) => 4
    case (Back, Earning) => 5
    case _ => -1
  }

  predicate OnFace(side: Side, k: FieldKey)
  {
    Position(side, k) >= 0
  }

  /** `Keys` and `Position` describe the same order. */
  lemma KeysAgreeWithPosition(side: Side)
    ensures forall i :: 0 <= i < |Keys(side)| ==> Position(side, Keys(side)[i]) == i
    ensures forall k :: OnFace(side, k) <==> k in Keys(side)
    ensures forall k :: OnFace(side, k) ==> Position(side, k) < |Keys(side)| && Keys(side)[Position(side, k)] == k
  {
  }

  function KeyName(k: FieldKey): string
  {
    match k
    case Title => "title"
    case Art => "art"
    case Description => "description"
    case Answers => "answers"
    case Effect => "effect"
    case Cost => "cost"
    case Level => "level"
    case Earning => "earning"
  }

  /** `card.cardFront[key]` or `card.cardBack[key]`. */
  function Value(c: Card, side: Side, k: FieldKey): FieldValue
    requires OnFace(side, k)
  {
    match (side, k)
    case (Front, Title) => Text(c.front.title)
    case (Front, Art) => Text(c.front.art)
    case (Front, Description) => Text(c.front.description)
    case (Front, Effect) => Text(c.front.effect)
    case (Front, Cost) => Number(c.front.cost)
    case (Front, Level) => Number(c.front.level)
    case (Front, Earning) => Number(c.front.earning)
    case (Back, Title) => Text(c.back.title)
    case (Back, Answers) => Text(c.back.answers)
    case (Back, Effect) => Text(c.back.effect)
    case (Back, Cost) => Number(c.back.cost)
    case (Back, Level) => Number(c.back.level)
    case (Back, Earning) => Number(c.back.earning)
  }

  /** `deck.deckFront[key]` or `deck.deckBack[key]`. */
  function Required(d: Deck, side: Side, k: FieldKey): bool
    requires OnFace(side, k)
  {
    match (side, k)
    case (Front, Title) => d.deckFront.title
    case (Front, Art) => d.deckFront.art
    case (Front, Description) => d.deckFront.description
    case (Front, Effect) => d.deckFront.effect
    case (Front, Cost) => d.deckFront.cost
    case (Front, Level) => d.deckFront.level
    case (Front, Earning) => d.deckFront.earning
    case (Back, Title) => d.deckBack.title
    case (Back, Answers) => d.deckBack.answers
    case (Back, Effect) => d.deckBack.effect
    case (Back, Cost) => d.deckBack.cost
    case (Back, Level) => d.deckBack.level
    case (Back, Earning) => d.deckBack.earning
  }

  /** JavaScript falsiness of a field value: the empty string or zero. */
  predicate Falsy(v: FieldValue)
  {
    v == Text("") || v == Number(0)
  }

  datatype CardError =
    | RepetitionsAbove30
    | RepetitionsBelow1
    | FieldInvalid(side: Side, key: FieldKey)

  /** The string the source pushes for each error. */
  function Message(e: CardError): string
  {
    match e
    case RepetitionsAbove30 => "Card repetitions must be up to 30"
    case RepetitionsBelow1 => "Card repetitions must be greater than 0"
    case FieldInvalid(Front, k) => "Front's " + KeyName(k) + " is invalid"
    case FieldInvalid(Back, k) => "Back's " + KeyName(k) + " is invalid"
  }

  /** When card `c` of deck `d` deserves error `e`. The front `art` field is
      exempt; a field the deck does not flag is never reported. */
  predicate Violates(c: Card, d: Deck, e: CardError)
  {
    match e
    case RepetitionsAbove30 => c.repetitions > 30
    case RepetitionsBelow1 => c.repetitions < 1
    case FieldInvalid(side, k) =>
      && OnFace(side, k)
      && !(side == Front && k == Art)
      && Required(d, side, k)
      && Falsy(Value(c, side, k))
  }

  /** Where an error comes in the order the checks run: repetitions, then the
      front keys, then the back keys. */
  function Rank(e: CardError): int
  {
    match e
    case RepetitionsAbove30 => 0
    case RepetitionsBelow1 => 1
    case FieldInvalid(Front, k) => 2 + Position(Front, k)
    case FieldInvalid(Back, k) => 2 + |Keys(Front)| + Position(Back, k)
  }

  function Base(side: Side): int
  {
    match side
    case Front => 2
    case Back => 2 + |Keys(Front)|
  }

  predicate InCheckOrder(errors: seq<CardError>)
  {
    forall i, j :: 0 <= i < j < |errors| ==> Rank(errors[i]) < Rank(errors[j])
  }

  /** The errors of the keys of `side` from position `from` on: the
      `Object.keys(...).forEach` loop over one face. */
  function FieldErrors(c: Card, d: Deck, side: Side, from: nat): (r: seq<CardError>)
    requires from <= |Keys(side)|
    ensures forall e :: e in r <==>
      e.FieldInvalid? && e.side == side && from <= Position(side, e.key) && Violates(c, d, e)
    ensures forall e :: e in r ==> Base(side) + from <= Rank(e) < Base(side) + |Keys(side)|
    ensures InCheckOrder(r)
    decreases |Keys(side)| - from
  {
    if from == |Keys(side)| then []
    else
      var rest := FieldErrors(c, d, side, from + 1);
      FieldErrorsStep(c, d, side, from, rest);
      KeyCheck(c, d, side, Keys(side)[from]) + rest
  }

  /** One step of `FieldErrors`: the check of key `from` put in front of the
      errors of the later keys keeps the contract. */
  lemma FieldErrorsStep(c: Card, d: Deck, side: Side, from: nat, rest: seq<CardError>)
    requires from < |Keys(side)|
    requires forall e :: e in rest <==>
      e.FieldInvalid? && e.side == side && from + 1 <= Position(side, e.key) && Violates(c, d, e)
    requires forall e :: e in rest ==> Base(side) + from + 1 <= Rank(e) < Base(side) + |Keys(side)|
    requires InCheckOrder(rest)
    ensures var r := KeyCheck(c, d, side, Keys(side)[from]) + rest;
      && (forall e :: e in r <==>
            e.FieldInvalid? && e.side == side && from <= Position(side, e.key) && Violates(c, d, e))
      && (forall e :: e in r ==> Base(side) + from <= Rank(e) < Base(side) + |Keys(side)|)
      && InCheckOrder(r)
  {
    KeysAgreeWithPosition(side);
    var k := Keys(side)[from];
    var here := KeyCheck(c, d, side, k);
    assert Position(side, k) == from;
    assert Rank(FieldInvalid(side, k)) == Base(side) + from;
    forall e: CardError | e.FieldInvalid? && e.side == side && Position(side, e.key) == from
      ensures e == FieldInvalid(side, k)
    {
    }
    JoinInCheckOrder(here, rest, Base(side) + from + 1);
  }

  /** The check of one key: its error, if the card commits it. */
  function KeyCheck(c: Card, d: Deck, side: Side, k: FieldKey): seq<CardError>
  {
    if Violates(c, d, FieldInvalid(side, k)) then [FieldInvalid(side, k)] else []
  }

  /** The repetitions checks, which run first. */
  function RepetitionErrors(c: Card): (r: seq<CardError>)
    ensures RepetitionsAbove30 in r <==> c.repetitions > 30
    ensures RepetitionsBelow1 in r <==> c.repetitions < 1
    ensures forall e :: e in r ==> !e.FieldInvalid?
    ensures forall e :: e in r ==> 0 <= Rank(e) < Base(Front)
    ensures InCheckOrder(r)
  {
    (if c.repetitions > 30 then [RepetitionsAbove30] else [])
    + (if c.repetitions < 1 then [RepetitionsBelow1] else [])
  }

  /** Two lists in check order, every rank of the first below every rank of
      the second, join into a list in check order. */
  lemma JoinInCheckOrder(a: seq<CardError>, b: seq<CardError>, mid: int)
    requires InCheckOrder(a) && InCheckOrder(b)
    requires forall e :: e in a ==> Rank(e) < mid
    requires forall e :: e in b ==> mid <= Rank(e)
    ensures InCheckOrder(a + b)
  {
    forall i, j | 0 <= i < j < |a + b|
      ensures Rank((a + b)[i]) < Rank((a + b)[j])
    {
      if j < |a| {
        assert (a + b)[i] == a[i] && (a + b)[j] == a[j];
      } else if i >= |a| {
        assert (a + b)[i] == b[i - |a|] && (a + b)[j] == b[j - |a|];
      } else {
        assert (a + b)[i] == a[i] && (a + b)[j] == b[j - |a|];
        assert a[i] in a && b[j - |a|] in b;
      }
    }
  }

  /** The errors of card `c` against deck `d`, in the order they are found.
      Its contract is `CardErrorsSpec`. */
  function CardErrors(c: Card, d: Deck): seq<CardError>
  {
    RepetitionErrors(c) + FieldErrors(c, d, Front, 0) + FieldErrors(c, d, Back, 0)
  }

  /** The error list holds exactly the errors the card commits, in check order. */
  lemma CardErrorsSpec(c: Card, d: Deck)
    ensures forall e :: e in CardErrors(c, d) <==> Violates(c, d, e)
    ensures InCheckOrder(CardErrors(c, d))
  {
    var reps := RepetitionErrors(c);
    var front := FieldErrors(c, d, Front, 0);
    var back := FieldErrors(c, d, Back, 0);
    JoinThreeInCheckOrder(reps, front, back);
    CardErrorsMembers(c, d, reps, front, back);
  }

  /** The repetitions errors, the front errors and the back errors, each in
      check order and in their own rank band, join into a list in check order. */
  lemma JoinThreeInCheckOrder(reps: seq<CardError>, front: seq<CardError>, back: seq<CardError>)
    requires InCheckOrder(reps) && InCheckOrder(front) && InCheckOrder(back)
    requires forall e :: e in reps ==> Rank(e) < Base(Front)
    requires forall e :: e in front ==> Base(Front) <= Rank(e) < Base(Front) + |Keys(Front)|
    requires forall e :: e in back ==> Base(Back) <= Rank(e)
    ensures InCheckOrder(reps + front + back)
  {
    JoinInCheckOrder(reps, front, Base(Front));
    assert Base(Back) == Base(Front) + |Keys(Front)|;
    forall e | e in reps + front
      ensures Rank(e) < Base(Back)
    {
    }
    JoinInCheckOrder(reps + front, back, Base(Back));
  }

  lemma CardErrorsMembers(c: Card, d: Deck, reps: seq<CardError>, front: seq<CardError>, back: seq<CardError>)
    requires reps == RepetitionErrors(c)
    requires front == FieldErrors(c, d, Front, 0)
    requires back == FieldErrors(c, d, Back, 0)
    ensures forall e :: e in reps + front + back <==> Violates(c, d, e)
  {
    forall e
      ensures e in reps + front + back <==> Violates(c, d, e)
    {
      if e.FieldInvalid? {
        FieldErrorMember(c, d, e, reps, front, back);
      } else {
        assert e !in front && e !in back;
        assert Violates(c, d, e) <==> e in reps by {
          if e == RepetitionsAbove30 {
            assert Violates(c, d, e) <==> c.repetitions > 30;
          } else {
            assert Violates(c, d, e) <==> c.repetitions < 1;
          }
        }
      }
    }
  }

  lemma FieldErrorMember(c: Card, d: Deck, e: CardError, reps: seq<CardError>, front: seq<CardError>, back: seq<CardError>)
    requires e.FieldInvalid?
    requires forall x :: x in reps ==> !x.FieldInvalid?
    requires front == FieldErrors(c, d, Front, 0)
    requires back == FieldErrors(c, d, Back, 0)
    ensures e in reps + front + back <==> Violates(c, d, e)
  {
    var Fi := Violates(c, d, e);
    if e.side == Front {
      assert e !in back;
      assert e in front <==> Fi;
    } else {
      assert e !in front;
      assert e in back <==> Fi;
    }
  }

  /** The source's strings for a list of errors, in the same order. */
  function Messages(errors: seq<CardError>): (r: seq<string>)
    ensures |r| == |errors|
    ensures forall i :: 0 <= i < |r| ==> r[i] == Message(errors[i])
  {
    seq(|errors|, i requires 0 <= i < |errors| => Message(errors[i]))
  }

  /** `isCardValid()`: the messages for card `c`, validated against deck `d`.
      The card passes exactly when it commits no error; which messages come,
      and in which order, is `IsCardValidReportsViolations`. */
  function IsCardValid(c: Card, d: Deck): (r: seq<string>)
    ensures |r| == 0 <==> forall e :: !Violates(c, d, e)
  {
    var errors := CardErrors(c, d);
    CardErrorsSpec(c, d);
    assert |errors| > 0 ==> errors[0] in errors;
    Messages(errors)
  }

  /** The validator reports a message exactly for each error the card commits,
      nothing else, and in the order the checks run. */
  lemma IsCardValidReportsViolations(c: Card, d: Deck)
    ensures forall e :: Message(e) in IsCardValid(c, d) <==> Violates(c, d, e)
    ensures forall i :: 0 <= i < |IsCardValid(c, d)| ==> ReportsViolation(c, d, IsCardValid(c, d)[i])
    ensures forall i, j, e1, e2 ::
      0 <= i < j < |IsCardValid(c, d)| && IsCardValid(c, d)[i] == Message(e1) && IsCardValid(c, d)[j] == Message(e2)
      ==> Rank(e1) < Rank(e2)
  {
    var errors := CardErrors(c, d);
    var r := Messages(errors);
    CardErrorsSpec(c, d);
    MessagesMembers(c, d, errors, r);
    MessagesNoJunk(c, d, errors, r);
    MessagesInOrder(errors, r);
  }

  lemma MessagesMembers(c: Card, d: Deck, errors: seq<CardError>, r: seq<string>)
    requires forall e :: e in errors <==> Violates(c, d, e)
    requires |r| == |errors| && forall i :: 0 <= i < |r| ==> r[i] == Message(errors[i])
    ensures forall e :: Message(e) in r <==> Violates(c, d, e)
  {
    forall e
      ensures Message(e) in r <==> Violates(c, d, e)
    {
      if Message(e) in r {
        var i :| 0 <= i < |r| && r[i] == Message(e);
        MessageInjective(e, errors[i]);
        assert errors[i] in errors;
      }
      if Violates(c, d, e) {
        var i :| 0 <= i < |errors| && errors[i] == e;
        assert r[i] == Message(e);
      }
    }
  }

  /** `s` is the message of an error card `c` commits against deck `d`. */
  ghost predicate ReportsViolation(c: Card, d: Deck, s: string)
  {
    exists e :: s == Message(e) && Violates(c, d, e)
  }

  lemma MessagesNoJunk(c: Card, d: Deck, errors: seq<CardError>, r: seq<string>)
    requires forall e :: e in errors ==> Violates(c, d, e)
    requires |r| == |errors| && forall i :: 0 <= i < |r| ==> r[i] == Message(errors[i])
    ensures forall i :: 0 <= i < |r| ==> ReportsViolation(c, d, r[i])
  {
    forall i | 0 <= i < |r|
      ensures ReportsViolation(c, d, r[i])
    {
      var e := errors[i];
      assert e in errors;
      assert r[i] == Message(e);
      assert Violates(c, d, e);

    }
  }

  lemma MessagesInOrder(errors: seq<CardError>, r: seq<string>)
    requires InCheckOrder(errors)
    requires |r| == |errors| && forall i :: 0 <= i < |r| ==> r[i] == Message(errors[i])
    ensures forall i, j, e1, e2 ::
      0 <= i < j < |r| && r[i] == Message(e1) && r[j] == Message(e2) ==> Rank(e1) < Rank(e2)
  {
    forall i, j, e1, e2 | 0 <= i < j < |r| && r[i] == Message(e1) && r[j] == Message(e2)
      ensures Rank(e1) < Rank(e2)
    {
      MessageInjective(e1, errors[i]);
      MessageInjective(e2, errors[j]);
    }
  }

  lemma KeyNameInjective(k1: FieldKey, k2: FieldKey)
    requires KeyName(k1) == KeyName(k2)
    ensures k1 == k2
  {
  }

  /** Distinct errors have distinct messages, so a message names its error. */
  lemma MessageInjective(e1: CardError, e2: CardError)
    requires Message(e1) == Message(e2)
    ensures e1 == e2
  {
    var m := Message(e1);
    if e1.FieldInvalid? && e2.FieldInvalid? {
      assert e1.side == e2.side by {
        assert m[0] == (if e1.side == Front then 'F' else 'B');
        assert m[0] == (if e2.side == Front then 'F' else 'B');
      }
      var p := if e1.side == Front then "Front's " else "Back's ";
      assert m == p + KeyName(e1.key) + " is invalid";
      assert m == p + KeyName(e2.key) + " is invalid";
      assert KeyName(e1.key) == m[|p|..|m| - 11];
      assert KeyName(e2.key) == m[|p|..|m| - 11];
      KeyNameInjective(e1.key, e2.key);
    }
  }

  /** The two repetitions messages track the two bounds, and never come together. */
  lemma RepetitionsMessages(c: Card, d: Deck)
    ensures "Card repetitions must be up to 30" in IsCardValid(c, d) <==> c.repetitions > 30
    ensures "Card repetitions must be greater than 0" in IsCardValid(c, d) <==> c.repetitions < 1
    ensures !("Card repetitions must be up to 30" in IsCardValid(c, d)
              && "Card repetitions must be greater than 0" in IsCardValid(c, d))
  {
    Reported(c, d, RepetitionsAbove30);
    Reported(c, d, RepetitionsBelow1);
  }

  /** A message is in the rendered list exactly when its error is in the list. */
  lemma MessageInList(errors: seq<CardError>, x: CardError)
    ensures Message(x) in Messages(errors) <==> x in errors
  {
    var r := Messages(errors);
    if Message(x) in r {
      var i :| 0 <= i < |r| && r[i] == Message(x);
      MessageInjective(x, errors[i]);
    }
    if x in errors {
      var i :| 0 <= i < |errors| && errors[i] == x;
      assert r[i] == Message(x);
    }
  }

  /** The message of error `e` is reported exactly when the card commits `e`. */
  lemma Reported(c: Card, d: Deck, e: CardError)
    ensures Message(e) in IsCardValid(c, d) <==> Violates(c, d, e)
  {
    CardErrorsSpec(c, d);
    MessageInList(CardErrors(c, d), e);
  }

  lemma FieldMessageText(side: Side, k: FieldKey)
    ensures Message(FieldInvalid(side, k))
         == (if side == Front then "Front's " else "Back's ") + KeyName(k) + " is invalid"
  {
  }

  /** A front field other than `art` is reported exactly when the deck flags
      it and it is empty or zero. */
  lemma FrontFieldMessage(c: Card, d: Deck, k: FieldKey)
    requires OnFace(Front, k) && k != Art
    ensures "Front's " + KeyName(k) + " is invalid" in IsCardValid(c, d)
      <==> Required(d, Front, k) && Falsy(Value(c, Front, k))
  {
    Reported(c, d, FieldInvalid(Front, k));
    FieldMessageText(Front, k);
  }

  /** The front `art` field is never reported, whatever the deck flags. */
  lemma FrontArtNeverReported(c: Card, d: Deck)
    ensures "Front's " + KeyName(Art) + " is invalid" !in IsCardValid(c, d)
  {
    Reported(c, d, FieldInvalid(Front, Art));
    FieldMessageText(Front, Art);
  }

  /** A back field is reported exactly when the deck flags it and it is empty or zero. */
  lemma BackFieldMessage(c: Card, d: Deck, k: FieldKey)
    requires OnFace(Back, k)
    ensures "Back's " + KeyName(k) + " is invalid" in IsCardValid(c, d)
      <==> Required(d, Back, k) && Falsy(Value(c, Back, k))
  {
    Reported(c, d, FieldInvalid(Back, k));
    FieldMessageText(Back, k);
  }

  /** A field the deck does not flag is never reported, whatever its value. */
  lemma UnflaggedFieldNeverReported(c: Card, d: Deck, side: Side, k: FieldKey)
    requires OnFace(side, k) && !Required(d, side, k)
    ensures Message(FieldInvalid(side, k)) !in IsCardValid(c, d)
  {
    Reported(c, d, FieldInvalid(side, k));
  }

  lemma MessagesOfSingleton(e: CardError)
    ensures Messages([e]) == [Message(e)]
  {
  }

  /** When a card commits exactly one error, the validator returns its message alone. */
  lemma SingleViolation(c: Card, d: Deck, e: CardError)
    requires Violates(c, d, e)
    requires forall e' :: Violates(c, d, e') ==> e' == e
    ensures CardErrors(c, d) == [e]
    ensures IsCardValid(c, d) == [Message(e)]
  {
    CardErrorsSpec(c, d);
    OrderedListUnique(CardErrors(c, d), [e]);
    MessagesOfSingleton(e);
  }

  /** A list in check order is determined by its members: two such lists
      with the same members are equal. */
  lemma {:induction false} OrderedListUnique(a: seq<CardError>, b: seq<CardError>)
    requires InCheckOrder(a) && InCheckOrder(b)
    requires forall e :: e in a <==> e in b
    ensures a == b
    decreases |a|
  {
    SameMembersSameEmptiness(a, b);
    if |a| > 0 {
      assert a[0] in a && b[0] in b;
      assert a[0] == b[0];
      forall e
        ensures e in a[1..] <==> e in b[1..]
      {
        TailMembers(a, e);
        TailMembers(b, e);
      }
      OrderedListUnique(a[1..], b[1..]);
      assert a == [a[0]] + a[1..] && b == [b[0]] + b[1..];
    }
  }

  lemma SameMembersSameEmptiness(a: seq<CardError>, b: seq<CardError>)
    requires forall e :: e in a <==> e in b
    ensures |a| == 0 <==> |b| == 0
  {
    if |a| > 0 {
      assert a[0] in a;
    }
    if |b| > 0 {
      assert b[0] in b;
    }
  }

  /** In a list in check order, the tail holds every member but the head. */
  lemma TailMembers(a: seq<CardError>, e: CardError)
    requires InCheckOrder(a) && |a| > 0
    ensures e in a[1..] <==> e in a && e != a[0]
  {
    if e in a[1..] {
      var i :| 0 <= i < |a[1..]| && a[1..][i] == e;
      assert a[i + 1] == e;
    }
    if e in a && e != a[0] {
      var i :| 0 <= i < |a| && a[i] == e;
      assert a[1..][i - 1] == e;
    }
  }

  /** The validator reads only the repetitions and the face fields, never the
      card's identity or deck reference. */
  lemma CardErrorsReadOnlyContent(c1: Card, c2: Card, d: Deck)
    requires c1.repetitions == c2.repetitions && c1.front == c2.front && c1.back == c2.back
    ensures CardErrors(c1, d) == CardErrors(c2, d)
  {
    CardErrorsSpec(c1, d);
    CardErrorsSpec(c2, d);
    SameContentSameViolations(c1, c2, d);
    OrderedListUnique(CardErrors(c1, d), CardErrors(c2, d));
  }

  /** Whether a card commits an error depends only on its repetitions and face fields. */
  lemma SameContentSameViolations(c1: Card, c2: Card, d: Deck)
    requires c1.repetitions == c2.repetitions && c1.front == c2.front && c1.back == c2.back
    ensures forall e :: Violates(c1, d, e) <==> Violates(c2, d, e)
  {
    forall e
      ensures Violates(c1, d, e) <==> Violates(c2, d, e)
    {
      if e.FieldInvalid? && OnFace(e.side, e.key) {
        assert Value(c1, e.side, e.key) == Value(c2, e.side, e.key);
      }
    }
  }

  lemma SameContentSameMessages(c1: Card, c2: Card, d: Deck)
    requires c1.repetitions == c2.repetitions && c1.front == c2.front && c1.back == c2.back
    ensures IsCardValid(c1, d) == IsCardValid(c2, d)
  {
    CardErrorsReadOnlyContent(c1, c2, d);
  }

  lemma OnlyTitleFlagged(c: Card, d: Deck, e: CardError)
    requires d.deckFront == DeckFront(true, false, false, false, false, false, false)
    requires d.deckBack == DeckBack(false, false, false, false, false, false)
    requires 1 <= c.repetitions <= 30
    requires Violates(c, d, e)
    ensures e == FieldInvalid(Front, Title)
  {
  }

  lemma TitleMessage()
    ensures Message(FieldInvalid(Front, Title)) == "Front's title is invalid"
  {
  }

  /** A deck that requires only the front title, and a card within the
      repetitions bounds whose title is empty. */
  lemma ScenarioEmptyRequiredTitle(c: Card, d: Deck)
    requires d.deckFront == DeckFront(true, false, false, false, false, false, false)
    requires d.deckBack == DeckBack(false, false, false, false, false, false)
    requires 1 <= c.repetitions <= 30
    requires c.front.title == ""
    ensures IsCardValid(c, d) == ["Front's title is invalid"]
  {
    var e := FieldInvalid(Front, Title);
    forall e' | Violates(c, d, e')
      ensures e' == e
    {
      OnlyTitleFlagged(c, d, e');
    }
    SingleViolation(c, d, e);
    TitleMessage();
  }
}
