/**
 The form-visibility flags of the state editor: four rule forms, of which
 opening one hides the others, and three page-level flags.
 */
module Visibility {

  datatype RuleForm = StatementForm | ConditionalForm | TransitionForm | EffectForm

  datatype Forms = Forms(
    showStatementForm: bool,
    showConditionalForm: bool,
    showTransitionForm: bool,
    showEffectForm: bool,
    show: bool,
    showStateForm: bool,
    showDeletePopup: bool)

  /** Every flag starts out false. */
  const AllHidden := Forms(false, false, false, false, false, false, false)

  /** The flag of one rule form. */
  function Visible(f: Forms, form: RuleForm): bool
  {
    match form
    case StatementForm => f.showStatementForm
    case ConditionalForm => f.showConditionalForm
    case TransitionForm => f.showTransitionForm
    case EffectForm => f.showEffectForm
  }

  /** How many rule forms are open. */
  function OpenRuleForms(f: Forms): nat
  {
    (if f.showStatementForm then 1 else 0)
    + (if f.showConditionalForm then 1 else 0)
    + (if f.showTransitionForm then 1 else 0)
    + (if f.showEffectForm then 1 else 0)
  }

  /** The page-level flags of `f` and `g` agree. */
  predicate SamePageFlags(f: Forms, g: Forms)
  {
    f.show == g.show && f.showStateForm == g.showStateForm && f.showDeletePopup == g.showDeletePopup
  }

  /** `hideAllRules()`: every rule form closed, nothing else touched. */
  function HideAllRules(f: Forms): (r: Forms)
    ensures forall form :: !Visible(r, form)
    ensures OpenRuleForms(r) == 0
    ensures SamePageFlags(r, f)
  {
    f.(showStatementForm := false, showConditionalForm := false,
       showTransitionForm := false, showEffectForm := false)
  }

  /** `showStatementRule()`, `showConditionalRule()`, `showTransitionRule()`
      and `showEffectRule()`: close every rule form, then open `form`. */
  function ShowRule(f: Forms, form: RuleForm): (r: Forms)
    ensures forall g :: Visible(r, g) <==> g == form
    ensures OpenRuleForms(r) == 1
    ensures SamePageFlags(r, f)
  {
    var closed := HideAllRules(f);
    match form
    case StatementForm => closed.(showStatementForm := true)
    case ConditionalForm => closed.(showConditionalForm := true)
    case TransitionForm => closed.(showTransitionForm := true)
    case EffectForm => closed.(showEffectForm := true)
  }

  /** `hideAll()`: every rule form and every page-level flag off. */
  function HideAll(f: Forms): (r: Forms)
    ensures forall form :: !Visible(r, form)
    ensures !r.show && !r.showStateForm && !r.showDeletePopup
  {
    HideAllRules(f).(show := false, showStateForm := false, showDeletePopup := false)
  }

  /** Opening a form twice in a row: only the second one counts. */
  lemma ShowRuleLastWins(f: Forms, a: RuleForm, b: RuleForm)
    ensures ShowRule(ShowRule(f, a), b) == ShowRule(f, b)
  {
  }

  /** The flags after `ShowRule(f, form)` are the only ones with `f`'s page
      flags and `form` as the single open rule form. */
  lemma ShowRuleIsDetermined(f: Forms, form: RuleForm, g: Forms)
    requires SamePageFlags(g, f)
    requires forall x :: Visible(g, x) <==> x == form
    ensures g == ShowRule(f, form)
  {
    assert Visible(g, StatementForm) == (StatementForm == form);
    assert Visible(g, ConditionalForm) == (ConditionalForm == form);
    assert Visible(g, TransitionForm) == (TransitionForm == form);
    assert Visible(g, EffectForm) == (EffectForm == form);
  }
}
