/** `app/add-user/page.tsx`: the add-user form, its dropdown options, and
    what the page does with the reply to `POST /api/users`. */
module AddUserPage {
  import opened Schema
  import Http
  import UsersRoute

  /** The `FormData` interface: four strings. */
  datatype FormData = FormData(name: string, email: string, role: string, department: string)

  /** `keyof FormData`. */
  datatype Field = Name | Email | Role | Department

  /** The form as `useState` creates it: every field empty. */
  const InitialForm := FormData("", "", "", "")

  function Get(f: FormData, field: Field): string {
    match field
    case Name => f.name
    case Email => f.email
    case Role => f.role
    case Department => f.department
  }

  /** `handleInputChange`: the record with one field replaced. */
  function HandleInputChange(prev: FormData, field: Field, value: string): (r: FormData)
    ensures Get(r, field) == value
    ensures forall other: Field :: other != field ==> Get(r, other) == Get(prev, other)
  {
    match field
    case Name => prev.(name := value)
    case Email => prev.(email := value)
    case Role => prev.(role := value)
    case Department => prev.(department := value)
  }

  /** An entry of a dropdown's `options`: the text shown and the value stored. */
  datatype DropdownOption = DropdownOption(caption: string, value: string)

  const Roles: seq<DropdownOption> := [
    DropdownOption("Developer", "developer"),
    DropdownOption("Designer", "designer"),
    DropdownOption("Manager", "manager"),
    DropdownOption("Analyst", "analyst"),
    DropdownOption("Tester", "tester")
  ]

  const Departments: seq<DropdownOption> := [
    DropdownOption("Engineering", "engineering"),
    DropdownOption("Design", "design"),
    DropdownOption("Business", "business"),
    DropdownOption("Quality Assurance", "quality assurance"),
    DropdownOption("Marketing", "marketing"),
    DropdownOption("Sales", "sales")
  ]

  predicate Listed(options: seq<DropdownOption>, value: string) {
    exists i :: 0 <= i < |options| && options[i].value == value
  }

  /** What the user can do to the form: type into one of the two text
      inputs, or pick the option at some position of a dropdown. */
  datatype Edit =
    | TypeName(text: string)
    | TypeEmail(text: string)
    | PickRole(option: nat)
    | PickDepartment(option: nat)

  /** A pick names an option the dropdown shows. */
  predicate Offered(e: Edit) {
    match e
    case PickRole(i) => i < |Roles|
    case PickDepartment(i) => i < |Departments|
    case _ => true
  }

  /** The `onChange` handler behind each edit. */
  function ApplyEdit(f: FormData, e: Edit): FormData
    requires Offered(e)
  {
    match e
    case TypeName(text) => HandleInputChange(f, Name, text)
    case TypeEmail(text) => HandleInputChange(f, Email, text)
    case PickRole(i) => HandleInputChange(f, Role, Roles[i].value)
    case PickDepartment(i) => HandleInputChange(f, Field.Department, Departments[i].value)
  }

  /** The form after a series of edits, in order. */
  function ApplyEdits(f: FormData, edits: seq<Edit>): FormData
    requires forall k :: 0 <= k < |edits| ==> Offered(edits[k])
    decreases |edits|
  {
    if edits == [] then f else ApplyEdits(ApplyEdit(f, edits[0]), edits[1..])
  }

  /** Role and department are either still empty or one of the listed values. */
  predicate DropdownsListed(f: FormData) {
    && (f.role == "" || Listed(Roles, f.role))
    && (f.department == "" || Listed(Departments, f.department))
  }

  /** No series of edits takes role or department outside its dropdown. */
  lemma {:induction false} EditsKeepDropdownsListed(f: FormData, edits: seq<Edit>)
    requires DropdownsListed(f)
    requires forall k :: 0 <= k < |edits| ==> Offered(edits[k])
    ensures DropdownsListed(ApplyEdits(f, edits))
    decreases |edits|
  {
    if edits != [] {
      var next := ApplyEdit(f, edits[0]);
      match edits[0] {
        case PickRole(i) => assert Roles[i].value == next.role;
        case PickDepartment(i) => assert Departments[i].value == next.department;
        case _ =>
      }
      EditsKeepDropdownsListed(next, edits[1..]);
    }
  }

  /** A form the page can hold has a role among the five listed values and a
      department among the six, unless still unset. */
  lemma {:induction false} FormDropdownsListed(edits: seq<Edit>)
    requires forall k :: 0 <= k < |edits| ==> Offered(edits[k])
    ensures DropdownsListed(ApplyEdits(InitialForm, edits))
  {
    assert DropdownsListed(InitialForm);
    EditsKeepDropdownsListed(InitialForm, edits);
  }

  /** The body of a reply that is not ok: not JSON, or an object whose
      `error` member is a string or missing. */
  datatype ReplyBody = Unparseable | ErrorObject(error: Option<string>)

  /** What `fetch` produced: a thrown error, or a response. */
  datatype FetchOutcome = NetworkError | Reply(ok: bool, body: ReplyBody)

  datatype Severity = SuccessToast | ErrorToast

  datatype Toast = Toast(severity: Severity, summary: string, detail: string)

  const CreatedDetail := "User created successfully!"
  const FallbackDetail := "Failed to create user"
  const NetworkDetail := "Network error occurred"

  /** The toast `handleSubmit` shows for an outcome: success on an ok reply;
      otherwise the server's `error` message, the fallback when that is
      missing or empty, and the network message when `fetch` or
      `response.json()` throws. */
  function Notice(outcome: FetchOutcome): (t: Toast)
    ensures t.severity == SuccessToast <==> outcome.Reply? && outcome.ok
    ensures t.severity == SuccessToast ==> t.summary == "Success" && t.detail == CreatedDetail
    ensures t.severity == ErrorToast ==> t.summary == "Error"
    ensures outcome.Reply? && !outcome.ok && outcome.body.ErrorObject? ==>
      if FalsyText(outcome.body.error) then t.detail == FallbackDetail
      else t.detail == outcome.body.error.value
    ensures outcome.NetworkError? || (outcome.Reply? && !outcome.ok && outcome.body.Unparseable?) ==>
      t.detail == NetworkDetail
  {
    match outcome
    case NetworkError => Toast(ErrorToast, "Error", NetworkDetail)
    case Reply(ok, body) =>
      if ok then Toast(SuccessToast, "Success", CreatedDetail)
      else match body
        case Unparseable => Toast(ErrorToast, "Error", NetworkDetail)
        case ErrorObject(error) =>
          Toast(ErrorToast, "Error", if FalsyText(error) then FallbackDetail else error.value)
  }

  /** The `setTimeout` that navigates back to "/" is armed on an ok reply only. */
  predicate SchedulesNavigation(outcome: FetchOutcome) {
    outcome.Reply? && outcome.ok
  }

  /** The page's state. Toasts shown so far and whether navigation home has
      been scheduled stand in for the toast widget and the router. */
  class Page {
    var formData: FormData
    var loading: bool
    var toasts: seq<Toast>
    var navigationScheduled: bool

    constructor ()
      ensures formData == InitialForm && !loading && toasts == [] && !navigationScheduled
    {
      formData, loading, toasts, navigationScheduled := InitialForm, false, [], false;
    }

    /** An input's `onChange`: `setFormData` through `handleInputChange`. */
    method InputChange(field: Field, value: string)
      modifies this
      ensures formData == HandleInputChange(old(formData), field, value)
      ensures loading == old(loading) && toasts == old(toasts)
      ensures navigationScheduled == old(navigationScheduled)
    {
      formData := HandleInputChange(formData, field, value);
    }

    /** The first half of `handleSubmit`: `setLoading(true)`, then the
        request goes out with the form as its JSON body. */
    method BeginSubmit() returns (body: FormData)
      modifies this
      ensures loading && body == formData
      ensures formData == old(formData) && toasts == old(toasts)
      ensures navigationScheduled == old(navigationScheduled)
    {
      loading := true;
      body := formData;
    }

    /** The second half, once `fetch` has settled: one toast, navigation
        armed on success only, and `loading` cleared on every path. */
    method FinishSubmit(outcome: FetchOutcome)
      modifies this
      ensures !loading
      ensures toasts == old(toasts) + [Notice(outcome)]
      ensures navigationScheduled == (old(navigationScheduled) || SchedulesNavigation(outcome))
      ensures formData == old(formData)
    {
      var toast;
      match outcome {
        case NetworkError =>
          toast := Toast(ErrorToast, "Error", NetworkDetail);
        case Reply(ok, body) =>
          if ok {
            toast := Toast(SuccessToast, "Success", CreatedDetail);
            navigationScheduled := true;
          } else if body.Unparseable? {
            toast := Toast(ErrorToast, "Error", NetworkDetail);
          } else {
            var detail := if FalsyText(body.error) then FallbackDetail else body.error.value;
            toast := Toast(ErrorToast, "Error", detail);
          }
      }
      toasts := toasts + [toast];
      loading := false;
    }
  }

  /** The request `POST /api/users` receives from the page. */
  function RequestOf(f: FormData): UsersRoute.UserBody {
    UsersRoute.UserBody(Some(f.name), Some(f.email), Some(f.role), Some(f.department))
  }

  /** The reply as the page sees it: `ok` for a 2xx status; error bodies
      carry their message. */
  function OutcomeOf(resp: Http.Response): FetchOutcome {
    Reply(200 <= resp.status < 300,
          if resp.body.Error? then ErrorObject(Some(resp.body.error)) else ErrorObject(None))
  }

  /** Against the users route, the page reports success exactly when the
      user was created, and otherwise shows the route's own message. */
  lemma NoticeReportsRouteOutcome(users: seq<User>, f: FormData, outage: bool, id: nat, now: nat)
    ensures var resp := UsersRoute.Create(users, Some(RequestOf(f)), outage, id, now);
      var t := Notice(OutcomeOf(resp));
      && (t.severity == SuccessToast <==> resp.status == 201)
      && (resp.status != 201 ==> t.detail == resp.body.error)
  {
    var resp := UsersRoute.Create(users, Some(RequestOf(f)), outage, id, now);
    if resp.status != 201 {
      assert resp.body.Error? && resp.body.error != "";
    }
  }

  /** Submitting the untouched form is refused with the route's message
      about the four required fields, and the page stays put. */
  lemma UntouchedFormIsRefused(users: seq<User>, outage: bool, id: nat, now: nat)
    ensures var outcome := OutcomeOf(UsersRoute.Create(users, Some(RequestOf(InitialForm)), outage, id, now));
      Notice(outcome).detail == UsersRoute.MissingMessage && !SchedulesNavigation(outcome)
  {
    NoticeReportsRouteOutcome(users, InitialForm, outage, id, now);
  }
}
