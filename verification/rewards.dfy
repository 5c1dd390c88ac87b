/** The reward record edited by the catalog manager, the blank draft the form
    starts from, and the typed field edits the form applies to a draft. */
module Rewards {

  /** An optional value: the record's `expirationDate` may be absent. */
  datatype Option<T> = None | Some(value: T)

  /** A loyalty reward. `id == 0` marks a draft the backend has not stored yet.
      `validity` is free text: the form offers "instant" and "limited", but
      nothing else restricts it. */
  datatype Reward = Reward(
    id: int,
    name: string,
    description: string,
    points: int,
    quota: int,
    validity: string,
    neverExpire: bool,
    expirationDate: Option<string>,
    storeId: int
  )

  /** The blank draft: no id, no name, never expires, no store, no date. */
  const InitialReward: Reward :=
    Reward(0, "", "", 0, 0, "instant", true, None, 0)

  /** The fields of the reward form, which are also the keys of the error map. */
  datatype Field =
    | StoreId | Name | Description | Points | Quota | Validity | NeverExpire | ExpirationDate

  /** One edit made through the form: a typed value for exactly one field. */
  datatype FieldEdit =
    | SetStoreId(store: int)
    | SetName(text: string)
    | SetDescription(text: string)
    | SetPoints(amount: int)
    | SetQuota(amount: int)
    | SetValidity(text: string)
    | SetNeverExpire(flag: bool)
    | SetExpirationDate(date: string)

  /** The field an edit writes to. */
  function Target(e: FieldEdit): Field
  {
    match e
    case SetStoreId(_) => StoreId
    case SetName(_) => Name
    case SetDescription(_) => Description
    case SetPoints(_) => Points
    case SetQuota(_) => Quota
    case SetValidity(_) => Validity
    case SetNeverExpire(_) => NeverExpire
    case SetExpirationDate(_) => ExpirationDate
  }

  /** `a` and `b` agree on the id and on every form field other than `f`. */
  predicate AgreeExcept(a: Reward, b: Reward, f: Field)
  {
    && a.id == b.id
    && (f != StoreId ==> a.storeId == b.storeId)
    && (f != Name ==> a.name == b.name)
    && (f != Description ==> a.description == b.description)
    && (f != Points ==> a.points == b.points)
    && (f != Quota ==> a.quota == b.quota)
    && (f != Validity ==> a.validity == b.validity)
    && (f != NeverExpire ==> a.neverExpire == b.neverExpire)
    && (f != ExpirationDate ==> a.expirationDate == b.expirationDate)
  }

  /** `r` holds the value that `e` writes, in the field `e` targets. */
  predicate Carries(r: Reward, e: FieldEdit)
  {
    match e
    case SetStoreId(v) => r.storeId == v
    case SetName(v) => r.name == v
    case SetDescription(v) => r.description == v
    case SetPoints(v) => r.points == v
    case SetQuota(v) => r.quota == v
    case SetValidity(v) => r.validity == v
    case SetNeverExpire(v) => r.neverExpire == v
    case SetExpirationDate(v) => r.expirationDate == Some(v)
  }

  /** Applies one form edit to a draft: the edited field takes the new value
      and every other field, the id included, is left as it was. */
  function Apply(r: Reward, e: FieldEdit): (r': Reward)
    ensures Carries(r', e)
    ensures AgreeExcept(r, r', Target(e))
  {
    match e
    case SetStoreId(v) => r.(storeId := v)
    case SetName(v) => r.(name := v)
    case SetDescription(v) => r.(description := v)
    case SetPoints(v) => r.(points := v)
    case SetQuota(v) => r.(quota := v)
    case SetValidity(v) => r.(validity := v)
    case SetNeverExpire(v) => r.(neverExpire := v)
    case SetExpirationDate(v) => r.(expirationDate := Some(v))
  }

  /** An edit followed by a second edit of the same field is the second edit alone. */
  lemma ApplyLastWins(r: Reward, e1: FieldEdit, e2: FieldEdit)
    requires Target(e1) == Target(e2)
    ensures Apply(Apply(r, e1), e2) == Apply(r, e2)
  {
  }

  /** Edits of different fields commute. */
  lemma ApplyCommutes(r: Reward, e1: FieldEdit, e2: FieldEdit)
    requires Target(e1) != Target(e2)
    ensures Apply(Apply(r, e1), e2) == Apply(Apply(r, e2), e1)
  {
  }

  /** The "duplicate" template: every field of `r` except an id reset to 0 and
      the name prefixed with "Copy of ". */
  function DuplicateDraft(r: Reward): (d: Reward)
    ensures d.id == 0
    ensures |d.name| == |r.name| + 8 && d.name[8..] == r.name && d.name[..8] == "Copy of "
    ensures AgreeExcept(r.(id := 0), d, Name)
  {
    r.(id := 0, name := "Copy of " + r.name)
  }
}
