/**
 The state editor: selecting a state of the game graph, editing its rules,
 saving it through the remote API and the form-visibility flags. Each
 handler is a function from the editor record (and, for a save, the API's
 answer) to the next record and the alerts it raised.
 */
module StateEditor {
  import opened Common
  import opened Api
  import opened Sequences
  import opened Visibility
  import opened StateRules

  datatype StateEditor = StateEditor(
    game: Game,
    stateSelected: Option<State>,
    stateIndex: int,
    forms: Forms,
    loading: bool)

  /** `states[index]` as JavaScript reads it: `undefined` outside the array. */
  function StateAt(states: seq<State>, index: int): (r: Option<State>)
    ensures r.Some? <==> 0 <= index < |states|
    ensures r.Some? ==> r.value == states[index]
  {
    if 0 <= index < |states| then Some(states[index]) else None
  }

  /** `onEdit(index)`: the state at `index` becomes the one being edited. */
  function OnEdit(e: StateEditor, index: int): (r: StateEditor)
    ensures r.stateSelected == StateAt(e.game.states, index)
    ensures r.stateIndex == index
    ensures r.(stateSelected := e.stateSelected, stateIndex := e.stateIndex) == e
  {
    e.(stateSelected := StateAt(e.game.states, index), stateIndex := index)
  }

  /** `onDelete(index)`: opens the delete popup for the state at `index`,
      keeping the state index. */
  function OnDelete(e: StateEditor, index: int): (r: StateEditor)
    ensures r.forms.showDeletePopup
    ensures r.stateSelected == StateAt(e.game.states, index)
    ensures r.stateIndex == e.stateIndex && r.game == e.game && r.loading == e.loading
    ensures r.forms.(showDeletePopup := e.forms.showDeletePopup) == e.forms
  {
    e.(forms := e.forms.(showDeletePopup := true), stateSelected := StateAt(e.game.states, index))
  }

  /** `clearRequest()`: a blank draft, and no state index. */
  function ClearRequest(e: StateEditor): (r: StateEditor)
    ensures r.stateIndex == -1
    ensures r.stateSelected == Some(MockNewState(e.game, None))
    ensures r.game == e.game && r.forms == e.forms && r.loading == e.loading
  {
    e.(stateSelected := Some(MockNewState(e.game, None)), stateIndex := -1)
  }

  /** `clear()`: `clearRequest()` followed by `hideAll()`. */
  function Clear(e: StateEditor): (r: StateEditor)
    ensures r.stateIndex == -1 && r.stateSelected == Some(MockNewState(e.game, None))
    ensures forall form :: !Visible(r.forms, form)
    ensures !r.forms.show && !r.forms.showStateForm && !r.forms.showDeletePopup
    ensures r.game == e.game && r.loading == e.loading
  {
    var cleared := ClearRequest(e);
    cleared.(forms := HideAll(cleared.forms))
  }

  const RuleAddedAlert := Alert("Rule added to state", Success)

  /** The selected state holds a transition and a conditional rule at once. */
  predicate BothRulesSet(s: State)
  {
    s.transition.Some? && s.conditionalRule.Some?
  }

  /** `onSaveStatementRule(rule)`: appends `rule` to the selected state's statement rules. */
  function OnSaveStatementRule(e: StateEditor, rule: StatementRule): (r: Step<StateEditor>)
    requires e.stateSelected.Some?
    ensures r.editor.stateSelected.Some?
    ensures r.editor.stateSelected.value.statementRules == e.stateSelected.value.statementRules + [rule]
    ensures r.editor.stateSelected.value.(statementRules := []) == e.stateSelected.value.(statementRules := [])
    ensures r.editor.(stateSelected := e.stateSelected) == e
    ensures r.alerts == [RuleAddedAlert]
  {
    var s := e.stateSelected.value;
    Step(e.(stateSelected := Some(s.(statementRules := s.statementRules + [rule]))), [RuleAddedAlert])
  }

  /** `onDeleteStatementRule(index)`: the statement rules without position
      `index`; an index outside the list changes nothing. */
  function OnDeleteStatementRule(e: StateEditor, index: int): (r: StateEditor)
    requires e.stateSelected.Some?
    ensures r.stateSelected.Some?
    ensures var before := e.stateSelected.value.statementRules;
      var after := r.stateSelected.value.statementRules;
      && (0 <= index < |before| ==>
          && |after| == |before| - 1
          && (forall j :: 0 <= j < index ==> after[j] == before[j])
          && (forall j :: index <= j < |after| ==> after[j] == before[j + 1]))
      && (!(0 <= index < |before|) ==> after == before)
    ensures r.stateSelected.value.(statementRules := []) == e.stateSelected.value.(statementRules := [])
    ensures r.(stateSelected := e.stateSelected) == e
  {
    var s := e.stateSelected.value;
    e.(stateSelected := Some(s.(statementRules := RemoveAt(s.statementRules, index))))
  }

  /** Deleting the statement rule just added restores the selected state. */
  lemma StatementRuleRoundTrip(e: StateEditor, rule: StatementRule)
    requires e.stateSelected.Some?
    ensures OnDeleteStatementRule(OnSaveStatementRule(e, rule).editor,
                                  |e.stateSelected.value.statementRules|) == e
  {
    var rules := e.stateSelected.value.statementRules;
    assert (rules + [rule])[..|rules|] + (rules + [rule])[|rules| + 1..] == rules;
  }

  /** `onSaveConditionalRule(rule)`: the conditional rule replaces the transition. */
  function OnSaveConditionalRule(e: StateEditor, rule: ConditionalRule): (r: Step<StateEditor>)
    requires e.stateSelected.Some?
    ensures r.editor.stateSelected.Some?
    ensures r.editor.stateSelected.value.conditionalRule == Some(rule)
    ensures r.editor.stateSelected.value.transition.None?
    ensures !BothRulesSet(r.editor.stateSelected.value)
    ensures r.editor.stateSelected.value.(conditionalRule := None, transition := None)
         == e.stateSelected.value.(conditionalRule := None, transition := None)
    ensures r.editor.(stateSelected := e.stateSelected) == e
    ensures r.alerts == [RuleAddedAlert]
  {
    var s := e.stateSelected.value;
    Step(e.(stateSelected := Some(s.(transition := None, conditionalRule := Some(rule)))), [RuleAddedAlert])
  }

  /** `onSaveTransitionRule()`: only the conditional rule is dropped. The
      handler itself never sets the transition; the model assumes the
      transition form has written it before this handler runs. */
  function OnSaveTransitionRule(e: StateEditor): (r: Step<StateEditor>)
    requires e.stateSelected.Some?
    ensures r.editor.stateSelected.Some?
    ensures r.editor.stateSelected.value.conditionalRule.None?
    ensures !BothRulesSet(r.editor.stateSelected.value)
    ensures r.editor.stateSelected.value.(conditionalRule := None) == e.stateSelected.value.(conditionalRule := None)
    ensures r.editor.(stateSelected := e.stateSelected) == e
    ensures r.alerts == [RuleAddedAlert]
  {
    var s := e.stateSelected.value;
    Step(e.(stateSelected := Some(s.(conditionalRule := None))), [RuleAddedAlert])
  }

  /** Saving a conditional rule makes any state that is not protected pass validation. */
  lemma ConditionalRuleSatisfiesValidator(e: StateEditor, rule: ConditionalRule)
    requires e.stateSelected.Some? && !IsProtectedLabel(e.stateSelected.value.stateLabel)
    ensures IsStateValid(OnSaveConditionalRule(e, rule).editor.stateSelected).None?
  {
  }

  /** After the transition handler, the state passes validation exactly when
      it has a transition and is not protected. */
  lemma TransitionRuleAndValidator(e: StateEditor)
    requires e.stateSelected.Some?
    ensures var s := e.stateSelected.value;
      IsStateValid(OnSaveTransitionRule(e).editor.stateSelected).None?
      <==> s.transition.Some? && !IsProtectedLabel(s.stateLabel)
  {
  }

  const StateUpdatedAlert := Alert("State Updated", Success)
  const StateCreatedAlert := Alert("State Created", Success)

  /** `states` with `states[index] = res` applied and nothing else changed. */
  ghost predicate ReplacedAt(before: seq<State>, after: seq<State>, index: int, res: State)
  {
    && 0 <= index < |before|
    && |after| == |before|
    && after[index] == res
    && forall j :: 0 <= j < |before| && j != index ==> after[j] == before[j]
  }

  /** `saveState()`, with the answer of `updateState` (for a state index) or
      `createState` (otherwise) given as `outcome`; `Ok(None)` is an empty
      answer, which the source ignores. */
  function SaveState(e: StateEditor, outcome: ApiOutcome<Option<State>>): (r: Step<StateEditor>)
    requires IsStateValid(e.stateSelected).None? && e.stateIndex >= 0 ==> e.stateIndex < |e.game.states|
    ensures IsStateValid(e.stateSelected).Some? ==>
      && r.editor == e.(loading := true)
      && r.alerts == DangerAlerts(IsStateValid(e.stateSelected).value)
    ensures IsStateValid(e.stateSelected).None? && outcome == Ok(None) ==>
      r.editor == e.(loading := true) && r.alerts == []
    ensures IsStateValid(e.stateSelected).None? && outcome.Err? ==>
      && r.editor == e.(loading := false)
      && r.alerts == DangerAlerts(outcome.errors)
    ensures IsStateValid(e.stateSelected).None? && outcome.Ok? && outcome.value.Some? ==>
      && r.editor.stateIndex == -1
      && r.editor.stateSelected == Some(MockNewState(e.game, None))
      && !r.editor.loading
      && r.editor.forms == e.forms
      && r.editor.game.id == e.game.id && r.editor.game.decks == e.game.decks
    ensures IsStateValid(e.stateSelected).None? && outcome.Ok? && outcome.value.Some? && e.stateIndex >= 0 ==>
      && ReplacedAt(e.game.states, r.editor.game.states, e.stateIndex, outcome.value.value)
      && r.alerts == [StateUpdatedAlert]
    ensures IsStateValid(e.stateSelected).None? && outcome.Ok? && outcome.value.Some? && e.stateIndex < 0 ==>
      && r.editor.game.states == e.game.states + [outcome.value.value]
      && r.alerts == [StateCreatedAlert]
  {
    var busy := e.(loading := true);
    match IsStateValid(e.stateSelected)
    case Some(errors) => Step(busy, DangerAlerts(errors))
    case None =>
      match outcome
      case Err(messages) => Step(busy.(loading := false), DangerAlerts(messages))
      case Ok(None) => Step(busy, [])
      case Ok(Some(res)) =>
        if e.stateIndex >= 0 then
          var stored := busy.(game := e.game.(states := e.game.states[e.stateIndex := res]));
          Step(ClearRequest(stored).(loading := false), [StateUpdatedAlert])
        else
          var stored := busy.(game := e.game.(states := e.game.states + [res]));
          Step(ClearRequest(stored).(loading := false), [StateCreatedAlert])
  }

  /** A refused state never reaches the API: the answer is not consulted. */
  lemma RefusedStateIgnoresOutcome(e: StateEditor, o1: ApiOutcome<Option<State>>, o2: ApiOutcome<Option<State>>)
    requires IsStateValid(e.stateSelected).Some?
    ensures SaveState(e, o1) == SaveState(e, o2)
  {
  }

  /** Whatever the outcome, the game's states change only by the one write
      the answer calls for: a replacement in place or an append. */
  lemma SaveStateChangesOneEntry(e: StateEditor, outcome: ApiOutcome<Option<State>>)
    requires IsStateValid(e.stateSelected).None? && e.stateIndex >= 0 ==> e.stateIndex < |e.game.states|
    ensures var after := SaveState(e, outcome).editor.game.states;
      || after == e.game.states
      || (e.stateIndex >= 0 && outcome.Ok? && outcome.value.Some?
          && ReplacedAt(e.game.states, after, e.stateIndex, outcome.value.value))
      || (e.stateIndex < 0 && outcome.Ok? && outcome.value.Some?
          && after == e.game.states + [outcome.value.value])
  {
  }

  /** After a successful update, editing the same index brings back the
      state the API returned. */
  lemma UpdateThenEditRoundTrip(e: StateEditor, res: State)
    requires IsStateValid(e.stateSelected).None? && 0 <= e.stateIndex < |e.game.states|
    ensures OnEdit(SaveState(e, Ok(Some(res))).editor, e.stateIndex).stateSelected == Some(res)
  {
  }

  /** After a successful create, the new state sits at the old length of the
      list, where editing finds it. */
  lemma CreateThenEditRoundTrip(e: StateEditor, res: State)
    requires IsStateValid(e.stateSelected).None? && e.stateIndex < 0
    ensures OnEdit(SaveState(e, Ok(Some(res))).editor, |e.game.states|).stateSelected == Some(res)
  {
  }

  /** Creating a state with a transition: on success the list grows by the
      returned state; on failure the list is kept and the message is
      raised as a danger alert. */
  lemma ScenarioCreateStateWithTransition(e: StateEditor, t: Transition, res: State)
    requires e.stateIndex == -1
    requires e.stateSelected.Some?
    requires e.stateSelected.value.transition == Some(t)
    requires !IsProtectedLabel(e.stateSelected.value.stateLabel)
    requires res.id == Some("s1")
    ensures var ok := SaveState(e, Ok(Some(res))).editor.game.states;
      |ok| == |e.game.states| + 1 && res in ok && ok[|e.game.states|].id == Some("s1")
    ensures var failed := SaveState(e, Err(["bad request"]));
      failed.editor.game.states == e.game.states
      && failed.alerts == [Alert("bad request", Danger)]
  {
  }
}
