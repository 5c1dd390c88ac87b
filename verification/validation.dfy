/** The form's validation rules: a draft maps to one error message per
    offending field, and the draft may be submitted only when that map is empty. */
module Validation {
  import opened Rewards

  const NameRequired := "Reward name is required"
  const DescriptionRequired := "Description is required"
  const PointsPositive := "Points must be greater than 0"
  const QuotaNonNegative := "Quota must be 0 or greater"
  const ValidityRequired := "Validity is required"
  const ExpirationRequired := "Expiration date is required when not set to never expire"
  const StoreRequired := "Store selection is required"

  /** JavaScript truthiness of an optional date string: absent and "" are both falsy. */
  predicate HasDate(d: Option<string>)
  {
    d.Some? && d.value != ""
  }

  /** Whether `r` breaks the rule attached to field `f`. The never-expire
      checkbox has no rule of its own; it only relaxes the date rule. */
  predicate Violates(r: Reward, f: Field)
  {
    match f
    case Name => r.name == ""
    case Description => r.description == ""
    case Points => r.points <= 0
    case Quota => r.quota < 0
    case Validity => r.validity == ""
    case ExpirationDate => !r.neverExpire && !HasDate(r.expirationDate)
    case StoreId => r.storeId == 0
    case NeverExpire => false
  }

  /** The message shown under field `f` when its rule is broken. */
  function Message(f: Field): string
  {
    match f
    case Name => NameRequired
    case Description => DescriptionRequired
    case Points => PointsPositive
    case Quota => QuotaNonNegative
    case Validity => ValidityRequired
    case ExpirationDate => ExpirationRequired
    case StoreId => StoreRequired
    case NeverExpire => ""
  }

  /** The rules in the order the form checks them. */
  const RuleOrder: seq<Field> :=
    [Name, Description, Points, Quota, Validity, ExpirationDate, StoreId]

  /** Checks `rules` in order against `r`, adding each broken rule's message
      to `errors`. A key already present stays; a broken rule overwrites its
      own key with its own message and touches no other key. */
  function CheckRules(r: Reward, rules: seq<Field>, errors: map<Field, string>): (e: map<Field, string>)
    ensures forall f :: f in e <==> f in errors || (f in rules && Violates(r, f))
    ensures forall f :: f in e ==> e[f] == (if f in rules && Violates(r, f) then Message(f) else errors[f])
    decreases |rules|
  {
    if rules == [] then errors
    else
      var f := rules[0];
      var errors' := if Violates(r, f) then errors[f := Message(f)] else errors;
      assert forall g :: g in rules <==> g == f || g in rules[1..];
      CheckRules(r, rules[1..], errors')
  }

  /** The error map of a draft: one entry per broken rule, holding that
      rule's message. The never-expire checkbox never gets an entry. */
  function Validate(r: Reward): (errors: map<Field, string>)
    ensures forall f :: f in errors <==> Violates(r, f)
    ensures forall f :: f in errors ==> errors[f] == Message(f)
    ensures NeverExpire !in errors
  {
    assert forall f :: Violates(r, f) ==> f in RuleOrder;
    map f | f in RuleOrder && Violates(r, f) :: Message(f)
  }

  /** Checking, from an empty map, any list of rules that includes every
      broken one yields the error map. */
  lemma CheckRulesFromEmpty(r: Reward, rules: seq<Field>)
    requires forall f :: Violates(r, f) ==> f in rules
    ensures CheckRules(r, rules, map[]) == Validate(r)
  {
    var e := CheckRules(r, rules, map[]);
    assert e.Keys == Validate(r).Keys;
  }

  /** The form's checks, run one after another in its order from an empty
      map, build exactly the error map. */
  lemma ValidateIsSequential(r: Reward)
    ensures CheckRules(r, RuleOrder, map[]) == Validate(r)
  {
    assert forall f :: Violates(r, f) ==> f in RuleOrder;
    CheckRulesFromEmpty(r, RuleOrder);
  }

  /** The form's verdict: submission proceeds only when no key was raised. */
  predicate IsValid(r: Reward)
  {
    |Validate(r)| == 0
  }

  /** Every rule, stated positively and independently of the error map. */
  predicate AllRulesHold(r: Reward)
  {
    && r.name != ""
    && r.description != ""
    && r.points > 0
    && r.quota >= 0
    && r.validity != ""
    && (r.neverExpire || HasDate(r.expirationDate))
    && r.storeId != 0
  }

  /** The error map is empty exactly when every rule holds. */
  lemma ValidIff(r: Reward)
    ensures IsValid(r) <==> AllRulesHold(r)
  {
    var errors := Validate(r);
    if AllRulesHold(r) {
      assert forall f :: !Violates(r, f);
      assert errors.Keys == {};
    } else {
      var f :| Violates(r, f);
      assert f in errors;
    }
  }

  /** The never-expire flag and the date are the only inputs of the date rule,
      so ticking "never expire" clears that error whatever the date holds. */
  lemma NeverExpireClearsDateError(r: Reward)
    ensures ExpirationDate !in Validate(Apply(r, SetNeverExpire(true)))
    ensures !r.neverExpire && !HasDate(r.expirationDate) ==> ExpirationDate in Validate(r)
    ensures ExpirationDate in Validate(r) ==> Validate(r)[ExpirationDate] == ExpirationRequired
  {
    var r' := Apply(r, SetNeverExpire(true));
    assert !Violates(r', ExpirationDate);
    assert Message(ExpirationDate) == ExpirationRequired;
  }

  /** An edit only changes the verdict on the rules that read the edited field:
      every other error comes and goes exactly as before. */
  lemma EditIsLocal(r: Reward, e: FieldEdit, f: Field)
    requires f != Target(e)
    requires Target(e) in {NeverExpire, ExpirationDate} ==> f != ExpirationDate
    ensures f in Validate(Apply(r, e)) <==> f in Validate(r)
  {
    var r' := Apply(r, e);
    assert AgreeExcept(r, r', Target(e));
    assert Violates(r', f) <==> Violates(r, f);
  }

  /** A draft with every field filled but an empty name reports the name and
      nothing else. */
  lemma EmptyNameOnly(r: Reward)
    requires r == Reward(0, "", "Free slice", 100, 5, "instant", true, None, 1)
    ensures Validate(r) == map[Name := NameRequired]
  {
    var errors := Validate(r);
    assert Violates(r, Name);
    assert !Violates(r, Description) && !Violates(r, Points) && !Violates(r, Quota);
    assert !Violates(r, Validity) && !Violates(r, ExpirationDate) && !Violates(r, StoreId);
    assert errors.Keys == {Name};
  }

  /** The blank draft breaks the name, description, points and store rules,
      and no others: quota 0, "instant" and never-expire are all acceptable. */
  lemma InitialRewardErrors(r: Reward)
    requires r == InitialReward
    ensures Name in Validate(r) && Description in Validate(r)
    ensures Points in Validate(r) && StoreId in Validate(r)
    ensures Quota !in Validate(r) && Validity !in Validate(r)
    ensures ExpirationDate !in Validate(r) && NeverExpire !in Validate(r)
  {
    assert Violates(r, Name) && Violates(r, Description) && Violates(r, Points) && Violates(r, StoreId);
    assert !Violates(r, Quota) && !Violates(r, Validity) && !Violates(r, ExpirationDate);
  }

  /** The rule on `validity` only asks for a non-empty value: a value outside
      "instant" and "limited" is accepted. */
  lemma ValidityNotRestrictedToEnum()
    ensures IsValid(Reward(0, "Slice", "Free slice", 100, 0, "forever", true, None, 1))
  {
    ValidIff(Reward(0, "Slice", "Free slice", 100, 0, "forever", true, None, 1));
  }
}
