/**
 The state validator and the state draft factory of the state editor.
 */
module StateRules {
  import opened Common
  import opened Api

  const NoDataMessage := "No data to save"
  const MissingRuleMessage := "Please, create a transition or a conditional rule to this state"
  const ProtectedStateMessage := "You can't create or edit neither states 'Game Start' or 'Game Over'"

  /** The labels of the two implicit terminal states, which the user may not
      create or edit. */
  predicate IsProtectedLabel(name: string)
  {
    name == "Game Start" || name == "Game Over"
  }

  /** The state leads somewhere: it has a transition or a conditional rule. */
  predicate HasOutgoingRule(s: State)
  {
    s.transition.Some? || s.conditionalRule.Some?
  }

  /** `isStateValid()`: `None` (the source's `null`) for a state that may be
      saved, otherwise a non-empty list of messages. */
  function IsStateValid(selected: Option<State>): (r: Option<seq<string>>)
    ensures selected.None? ==> r == Some([NoDataMessage])
    ensures selected.Some? ==>
      (r.None? <==> HasOutgoingRule(selected.value) && !IsProtectedLabel(selected.value.stateLabel))
    ensures r.Some? ==> |r.value| > 0
    ensures selected.Some? && r.Some? ==>
      && (MissingRuleMessage in r.value <==> !HasOutgoingRule(selected.value))
      && (ProtectedStateMessage in r.value <==> IsProtectedLabel(selected.value.stateLabel))
      && (forall m :: m in r.value ==> m == MissingRuleMessage || m == ProtectedStateMessage)
      && |r.value| == (if HasOutgoingRule(selected.value) then 0 else 1)
                      + (if IsProtectedLabel(selected.value.stateLabel) then 1 else 0)
      && r.value[0] == (if HasOutgoingRule(selected.value) then ProtectedStateMessage else MissingRuleMessage)
  {
    match selected
    case None => Some([NoDataMessage])
    case Some(s) =>
      var errors :=
        (if !HasOutgoingRule(s) then [MissingRuleMessage] else [])
        + (if IsProtectedLabel(s.stateLabel) then [ProtectedStateMessage] else []);
      if |errors| > 0 then Some(errors) else None
  }

  /** A state labelled "Game Start" or "Game Over" is refused whatever its rules. */
  lemma ProtectedStatesAlwaysRefused(s: State)
    requires IsProtectedLabel(s.stateLabel)
    ensures IsStateValid(Some(s)).Some?
    ensures ProtectedStateMessage in IsStateValid(Some(s)).value
  {
  }

  /** The editable content of a state: everything but its identity, its game
      and its appearance. */
  datatype StateContent = StateContent(
    purpose: string,
    stateLabel: string,
    conditionalRule: Option<ConditionalRule>,
    statementRules: seq<StatementRule>,
    transition: Option<Transition>)

  function Content(s: State): StateContent
  {
    StateContent(s.purpose, s.stateLabel, s.conditionalRule, s.statementRules, s.transition)
  }

  /** The validator reads only a state's content. */
  lemma ValidationReadsContent(s1: State, s2: State)
    requires Content(s1) == Content(s2)
    ensures IsStateValid(Some(s1)) == IsStateValid(Some(s2))
  {
  }

  /** The index names an existing state of the game. */
  predicate InRange(g: Game, index: Option<int>)
  {
    index.Some? && 0 <= index.value < |g.states|
  }

  const DraftColor := "#dedede"

  /** `mockNewState(index?)`: a draft of the default size, place and colour,
      with no identity; its content is copied from the state at `index`
      when there is one, and empty otherwise. */
  function MockNewState(g: Game, index: Option<int>): (r: State)
    ensures r.id.None? && r.game == g.id
    ensures r.color == DraftColor
    ensures r.width == 160 && r.height == 80 && r.x == 30 && r.y == 30
    ensures InRange(g, index) ==> Content(r) == Content(g.states[index.value])
    ensures !InRange(g, index) ==>
      && r.purpose == "" && r.stateLabel == ""
      && r.conditionalRule.None? && r.transition.None?
      && r.statementRules == []
  {
    var copy := InRange(g, index);
    State(
      None,
      g.id,
      DraftColor,
      if copy then g.states[index.value].purpose else "",
      if copy then g.states[index.value].stateLabel else "",
      if copy then g.states[index.value].conditionalRule else None,
      if copy then g.states[index.value].statementRules else [],
      if copy then g.states[index.value].transition else None,
      160,
      80,
      30,
      30)
  }

  /** A blank draft has no outgoing rule, so saving it untouched is refused
      with exactly the missing-rule message. */
  lemma BlankDraftIsRefused(g: Game, index: Option<int>)
    requires !InRange(g, index)
    ensures IsStateValid(Some(MockNewState(g, index))) == Some([MissingRuleMessage])
  {
    var s := MockNewState(g, index);
    assert s.stateLabel == "";
    assert !IsProtectedLabel(s.stateLabel);
    assert !HasOutgoingRule(s);
    var errors: seq<string> := [MissingRuleMessage] + [];
    assert errors == [MissingRuleMessage];
  }

  /** A copied draft is judged exactly like the state it was copied from. */
  lemma CopiedDraftValidatesLikeSource(g: Game, i: int)
    requires 0 <= i < |g.states|
    ensures IsStateValid(Some(MockNewState(g, Some(i)))) == IsStateValid(Some(g.states[i]))
  {
    ValidationReadsContent(MockNewState(g, Some(i)), g.states[i]);
  }
}
