/** Account creation (lib/actions/auth.ts): founding a parish, with the
    parish removed again when the account cannot be created, and joining
    an existing parish. The authentication service is outside the model:
    the request sent to it is part of the result and its answer is a
    parameter. A form field that is absent is "". */
module Signup {
  import opened Types
  import opened Store
  import opened Utils

  const MsgFillAll: string := "Preencha todos os campos."
  const MsgShortPassword: string := "A senha deve ter pelo menos 6 caracteres."
  const MsgParishExists: string := "Já existe uma paróquia com esse nome. Tente outro nome."
  const MsgCreateParishFailed: string := "Erro ao criar paróquia. Tente novamente."
  const MsgEmailTaken: string := "Este email já está cadastrado."
  const MsgCreateAccountFailed: string := "Erro ao criar conta. Tente novamente."
  const MsgParishNotFound: string := "Paróquia não encontrada."

  const MinPasswordLength: nat := 6

  datatype NewParishForm = NewParishForm(
    name: string, email: string, password: string,
    parishName: string, parishCity: string, parishState: string)

  /** `parishId` is None when the field is empty. */
  datatype JoinForm = JoinForm(name: string, email: string, password: string, parishId: Option<Id>)

  /** `auth.signUp` with the profile metadata (name, role, parish_id). */
  datatype SignUpRequest = SignUpRequest(email: string, password: string, name: string, role: UserRole, parishId: Id)

  /** The authentication service's answer: success, an error whose message
      says "already registered", or any other error. */
  datatype SignUpOutcome = SignedUp | AlreadyRegistered | OtherAuthError

  /** The two account errors, in the order the source tests them. */
  function AccountError(outcome: SignUpOutcome): string
  {
    if outcome == AlreadyRegistered then MsgEmailTaken else MsgCreateAccountFailed
  }

  /** The unique index on `parishes.slug` that answers 23505. */
  predicate SlugTaken(parishes: seq<Parish>, slug: string)
  {
    exists p :: p in parishes && p.slug == slug
  }

  /** The checks before the parish insert: the six fields, then the
      password length, then the insert's own errors (a slug already taken,
      or another store error). */
  function NewParishChecks(parishes: seq<Parish>, form: NewParishForm, parishFault: bool): Checked<()>
  {
    if !FieldsFilled(form) then Refused(MsgFillAll)
    else if |form.password| < MinPasswordLength then Refused(MsgShortPassword)
    else if SlugTaken(parishes, GenerateSlug(form.parishName)) then Refused(MsgParishExists)
    else if parishFault then Refused(MsgCreateParishFailed)
    else Accepted(())
  }

  /** registerWithNewParishAction: the parish row under `newId`, then the
      sign-up as ADMIN_PARISH of that parish; when the sign-up fails the
      parish row is deleted again. That delete's error is discarded:
      `rollbackFault` stands for a failed delete, after which the parish row
      stays while the account error is returned all the same. Redirecting
      to the dashboard is success. */
  function RegisterWithNewParish(parishes: seq<Parish>, form: NewParishForm, outcome: SignUpOutcome,
                                 parishFault: bool, rollbackFault: bool, newId: Id)
    : (ActionResult<()>, seq<Parish>, Option<SignUpRequest>)
  {
    match NewParishChecks(parishes, form, parishFault)
    case Refused(message) => (Fail(message), parishes, None)
    case Accepted(_) =>
      var parish := Parish(newId, form.parishName, GenerateSlug(form.parishName), form.parishCity, form.parishState);
      var request := SignUpRequest(form.email, form.password, form.name, AdminParish, newId);
      if outcome == SignedUp then (Succeed(None), parishes + [parish], Some(request))
      else if rollbackFault then (Fail(AccountError(outcome)), parishes + [parish], Some(request))
      else (Fail(AccountError(outcome)), ParishesWithout(parishes + [parish], newId), Some(request))
  }

  method RegisterWithNewParishAction(db: Db, form: NewParishForm, outcome: SignUpOutcome, parishFault: bool,
                                     rollbackFault: bool)
    returns (r: ActionResult<()>, request: Option<SignUpRequest>)
    requires db.Valid()
    modifies db`parishes, db`nextId
    ensures db.Valid()
    ensures (r, db.parishes, request) ==
            RegisterWithNewParish(old(db.parishes), form, outcome, parishFault, rollbackFault, old(db.nextId))
    ensures db.nextId == old(db.nextId) + (if request.Some? then 1 else 0)
  {
    var checked := NewParishChecks(db.parishes, form, parishFault);
    if checked.Refused? {
      return Fail(checked.message), None;
    }
    r, request := FoundParish(db, form, GenerateSlug(form.parishName), outcome, rollbackFault);
  }

  /** The insert of the parish row and the sign-up after it, with the
      rollback when the sign-up fails, unless that delete fails too. */
  method FoundParish(db: Db, form: NewParishForm, slug: string, outcome: SignUpOutcome, rollbackFault: bool)
    returns (r: ActionResult<()>, request: Option<SignUpRequest>)
    requires db.Valid()
    modifies db`parishes, db`nextId
    ensures db.Valid() && db.nextId == old(db.nextId) + 1
    ensures var parish := Parish(old(db.nextId), form.parishName, slug, form.parishCity, form.parishState);
      && request == Some(SignUpRequest(form.email, form.password, form.name, AdminParish, parish.id))
      && (outcome == SignedUp ==> r == Succeed(None) && db.parishes == old(db.parishes) + [parish])
      && (outcome != SignedUp ==> r == Fail(AccountError(outcome)))
      && (outcome != SignedUp && rollbackFault ==> db.parishes == old(db.parishes) + [parish])
      && (outcome != SignedUp && !rollbackFault ==> db.parishes == ParishesWithout(old(db.parishes) + [parish], parish.id))
  {
    var parish := db.InsertParish(form.parishName, slug, form.parishCity, form.parishState);
    request := Some(SignUpRequest(form.email, form.password, form.name, AdminParish, parish.id));
    if outcome != SignedUp {
      if !rollbackFault {
        db.DeleteParish(parish.id);
      }
      return Fail(AccountError(outcome)), request;
    }
    r := Succeed(None);
  }

  /** Deleting the fresh parish again leaves the table exactly as before the insert. */
  lemma RollbackRestoresParishes(parishes: seq<Parish>, parish: Parish)
    requires forall p :: p in parishes ==> p.id != parish.id
    ensures ParishesWithout(parishes + [parish], parish.id) == parishes
  {
    var keep := (p: Parish) => p.id != parish.id;
    FilterAppend(parishes, [parish], keep);
    FilterKeepsAll(parishes, keep);
    assert Filter([parish], keep) == [] by {
      assert [parish][..0] == [];
    }
  }

  predicate FieldsFilled(form: NewParishForm)
  {
    form.name != [] && form.email != [] && form.password != [] &&
    form.parishName != [] && form.parishCity != [] && form.parishState != []
  }

  /** The guards in order: an empty field, then a short password, then a
      taken slug, each with its own message. */
  lemma NewParishRefusals(parishes: seq<Parish>, form: NewParishForm, parishFault: bool)
    ensures var checked := NewParishChecks(parishes, form, parishFault);
      && (!FieldsFilled(form) ==> checked == Refused(MsgFillAll))
      && (FieldsFilled(form) && |form.password| < MinPasswordLength ==> checked == Refused(MsgShortPassword))
      && ((FieldsFilled(form) && |form.password| >= MinPasswordLength &&
           SlugTaken(parishes, GenerateSlug(form.parishName))) ==> checked == Refused(MsgParishExists))
  {
  }

  /** A refused form writes nothing and sends no sign-up request. */
  lemma NewParishRefusedWritesNothing(parishes: seq<Parish>, form: NewParishForm, outcome: SignUpOutcome,
                                      parishFault: bool, rollbackFault: bool, newId: Id)
    requires NewParishChecks(parishes, form, parishFault).Refused?
    ensures RegisterWithNewParish(parishes, form, outcome, parishFault, rollbackFault, newId) ==
            (Fail(NewParishChecks(parishes, form, parishFault).message), parishes, None)
  {
  }

  /** An accepted form's slug is free. */
  lemma NewParishSlugFree(parishes: seq<Parish>, form: NewParishForm, parishFault: bool)
    requires NewParishChecks(parishes, form, parishFault).Accepted?
    ensures !SlugTaken(parishes, GenerateSlug(form.parishName))
  {
  }

  /** The three outcomes after the parish insert of an accepted form. */
  lemma NewParishOutcomes(parishes: seq<Parish>, form: NewParishForm, outcome: SignUpOutcome,
                          parishFault: bool, rollbackFault: bool, newId: Id, parish: Parish)
    requires forall p :: p in parishes ==> p.id < newId
    requires NewParishChecks(parishes, form, parishFault).Accepted?
    requires parish == Parish(newId, form.parishName, GenerateSlug(form.parishName), form.parishCity, form.parishState)
    ensures var request := Some(SignUpRequest(form.email, form.password, form.name, AdminParish, newId));
      RegisterWithNewParish(parishes, form, outcome, parishFault, rollbackFault, newId) ==
        if outcome == SignedUp then (Succeed(None), parishes + [parish], request)
        else if rollbackFault then (Fail(AccountError(outcome)), parishes + [parish], request)
        else (Fail(AccountError(outcome)), parishes, request)
  {
    if outcome != SignedUp && !rollbackFault {
      RollbackRestoresParishes(parishes, parish);
    }
  }

  /** The founder's parish: its slug is generateSlug of the parish name
      (a slug, whatever the name), and the sign-up asks for ADMIN_PARISH of
      exactly that parish. On success the parish stays; when the sign-up
      fails the parishes table is as before the call, unless the delete
      that should undo the insert fails, and then the new parish stays. */
  lemma NewParishEffect(parishes: seq<Parish>, form: NewParishForm, outcome: SignUpOutcome,
                        parishFault: bool, rollbackFault: bool, newId: Id)
    requires forall p :: p in parishes ==> p.id < newId
    requires NewParishChecks(parishes, form, parishFault).Accepted?
    ensures var (r, parishes', request) := RegisterWithNewParish(parishes, form, outcome, parishFault, rollbackFault, newId);
      var slug := GenerateSlug(form.parishName);
      && !SlugTaken(parishes, slug) && IsSlug(slug)
      && request == Some(SignUpRequest(form.email, form.password, form.name, AdminParish, newId))
      && (r.success <==> outcome == SignedUp)
      && (r.success ==> parishes' == parishes + [Parish(newId, form.parishName, slug, form.parishCity, form.parishState)])
      && (!r.success ==> r.error == Some(AccountError(outcome)))
      && (!r.success && !rollbackFault ==> parishes' == parishes)
      && (!r.success && rollbackFault ==>
            parishes' == parishes + [Parish(newId, form.parishName, slug, form.parishCity, form.parishState)])
  {
    NewParishSlugFree(parishes, form, parishFault);
    GenerateSlugIsSlug(form.parishName);
    NewParishOutcomes(parishes, form, outcome, parishFault, rollbackFault, newId,
                      Parish(newId, form.parishName, GenerateSlug(form.parishName), form.parishCity, form.parishState));
  }


  /** registerJoinParishAction: the fields, the password length, the
      parish read with `.single()`, then the sign-up as VOLUNTEER of it. */
  function RegisterJoinParish(parishes: seq<Parish>, form: JoinForm, outcome: SignUpOutcome)
    : (ActionResult<()>, Option<SignUpRequest>)
  {
    if form.name == [] || form.email == [] || form.password == [] || form.parishId.None? then (Fail(MsgFillAll), None)
    else if |form.password| < MinPasswordLength then (Fail(MsgShortPassword), None)
    else if Single(ParishesWithId(parishes, form.parishId.value)).None? then (Fail(MsgParishNotFound), None)
    else
      var request := SignUpRequest(form.email, form.password, form.name, Volunteer, form.parishId.value);
      if outcome == SignedUp then (Succeed(None), Some(request))
      else (Fail(AccountError(outcome)), Some(request))
  }

  /** A join is only sent for a parish that exists, always as VOLUNTEER of
      that parish; an empty field or a short password sends nothing. */
  lemma JoinEffect(parishes: seq<Parish>, form: JoinForm, outcome: SignUpOutcome)
    ensures var (r, request) := RegisterJoinParish(parishes, form, outcome);
      && ((form.name == [] || form.email == [] || form.password == [] || form.parishId.None?) ==>
            r == Fail(MsgFillAll) && request.None?)
      && (request.Some? ==>
            && form.parishId.Some?
            && (exists p :: p in parishes && p.id == form.parishId.value)
            && request.value == SignUpRequest(form.email, form.password, form.name, Volunteer, form.parishId.value)
            && |form.password| >= MinPasswordLength)
      && (r.success <==> request.Some? && outcome == SignedUp)
      && (form.parishId.Some? && request.None? && r.error != Some(MsgFillAll) && r.error != Some(MsgShortPassword) ==>
            r == Fail(MsgParishNotFound))
  {
    var (r, request) := RegisterJoinParish(parishes, form, outcome);
    if request.Some? {
      var p := Single(ParishesWithId(parishes, form.parishId.value)).value;
      assert p in ParishesWithId(parishes, form.parishId.value);
    }
  }

  /** A parish id that no row has is "not found" once the fields pass. */
  lemma JoinUnknownParish(parishes: seq<Parish>, form: JoinForm, outcome: SignUpOutcome)
    requires form.name != [] && form.email != [] && |form.password| >= MinPasswordLength && form.parishId.Some?
    requires forall p :: p in parishes ==> p.id != form.parishId.value
    ensures RegisterJoinParish(parishes, form, outcome) == (Fail(MsgParishNotFound), None)
  {
    FilterNone(parishes, (p: Parish) => p.id == form.parishId.value);
  }
}
