/** The webmaster's dashboard of administrator accounts: the counts per
    status, the status filter with its ordering, the actions offered for
    each account, and the confirmation dialog that runs an action. The
    action itself is a server call; its outcome is a parameter. */
module AdminDashboard {
  import opened Base

  /** An administrator account; `status` is the server's text
      ("approved", "pending", "denied", or anything else). */
  datatype Admin = Admin(id: string, name: string, status: string)

  function WithStatus(status: string): Admin -> bool
  {
    (a: Admin) => a.status == status
  }

  /** `allAdmins?.filter(a => a.status === status).length || 0`. */
  function StatusCount(admins: Option<seq<Admin>>, status: string): (n: nat)
    ensures admins.None? ==> n == 0
    ensures admins.Some? ==> n == |Filter(admins.value, WithStatus(status))|
  {
    match admins
    case None => 0
    case Some(s) => CountWhere(s, WithStatus(status))
  }

  /** The three counts never add up to more than the accounts, and add up
      to exactly that many when every status is one of the three. */
  lemma CountsPartition(admins: seq<Admin>)
    ensures StatusCount(Some(admins), "approved") + StatusCount(Some(admins), "pending")
          + StatusCount(Some(admins), "denied") <= |admins|
    ensures (forall i :: 0 <= i < |admins| ==> admins[i].status in {"approved", "pending", "denied"}) ==>
      StatusCount(Some(admins), "approved") + StatusCount(Some(admins), "pending")
      + StatusCount(Some(admins), "denied") == |admins|
  {
    CountsAtMost(admins);
    if forall i :: 0 <= i < |admins| ==> admins[i].status in {"approved", "pending", "denied"} {
      CountsExact(admins);
    }
  }

  lemma {:induction false} CountsAtMost(admins: seq<Admin>)
    ensures StatusCount(Some(admins), "approved") + StatusCount(Some(admins), "pending")
          + StatusCount(Some(admins), "denied") <= |admins|
    decreases |admins|
  {
    if |admins| > 0 {
      CountsAtMost(admins[1..]);
      CountStep(admins, "approved");
      CountStep(admins, "pending");
      CountStep(admins, "denied");
    }
  }

  lemma {:induction false} CountsExact(admins: seq<Admin>)
    requires forall i :: 0 <= i < |admins| ==> admins[i].status in {"approved", "pending", "denied"}
    ensures StatusCount(Some(admins), "approved") + StatusCount(Some(admins), "pending")
          + StatusCount(Some(admins), "denied") == |admins|
    decreases |admins|
  {
    if |admins| > 0 {
      var rest := admins[1..];
      forall i | 0 <= i < |rest| ensures rest[i].status in {"approved", "pending", "denied"} {
        assert rest[i] == admins[i + 1];
      }
      CountsExact(rest);
      CountStep(admins, "approved");
      CountStep(admins, "pending");
      CountStep(admins, "denied");
      assert admins[0].status in {"approved", "pending", "denied"};
    }
  }

  /** The first account adds one to the count of its own status. */
  lemma CountStep(admins: seq<Admin>, status: string)
    requires |admins| > 0
    ensures StatusCount(Some(admins), status)
      == (if admins[0].status == status then 1 else 0) + StatusCount(Some(admins[1..]), status)
  {
  }

  // ---------------------------------------------------------------------
  // The list shown

  /** `sortedStatusOrder`: approved first, then pending, then denied; any
      other status has no rank (its comparisons give NaN). */
  function Rank(a: Admin): (r: Option<int>)
    ensures r.Some? <==> a.status in {"approved", "pending", "denied"}
  {
    if a.status == "approved" then Some(1)
    else if a.status == "pending" then Some(2)
    else if a.status == "denied" then Some(3)
    else None
  }

  /** The comparator of a specific status filter returns 0 for every pair. */
  function NoRank(a: Admin): Option<int>
  {
    Some(0)
  }

  predicate Keep(filterStatus: string, a: Admin)
  {
    filterStatus == "all" || a.status == filterStatus
  }

  /** The accounts shown: with "all", every account, ordered by rank
      (stable among equal ranks); with a status, exactly the accounts with
      that status, in their original order. */
  function FilteredAdmins(admins: Option<seq<Admin>>, filterStatus: string): (r: Option<seq<Admin>>)
    ensures admins.None? <==> r.None?
    ensures admins.Some? && filterStatus == "all" ==>
      multiset(r.value) == multiset(admins.value)
      && (AllKeyed(admins.value, Rank) ==> SortedBy(r.value, Rank))
    ensures admins.Some? && filterStatus != "all" ==>
      r.value == Filter(admins.value, WithStatus(filterStatus))
  {
    match admins
    case None => None
    case Some(s) =>
      var kept := Filter(s, (a: Admin) => Keep(filterStatus, a));
      if filterStatus == "all" then
        FilterAllPass(s, (a: Admin) => Keep(filterStatus, a));
        Some(SortBy(kept, Rank))
      else
        SameFilter(s, filterStatus);
        ConstantKeySorted(kept);
        Some(SortBy(kept, NoRank))
  }

  lemma SameFilter(s: seq<Admin>, filterStatus: string)
    requires filterStatus != "all"
    ensures Filter(s, (a: Admin) => Keep(filterStatus, a)) == Filter(s, WithStatus(filterStatus))
  {
    FilterSamePredicate(s, (a: Admin) => Keep(filterStatus, a), WithStatus(filterStatus));
  }

  /** Filtering with two predicates that agree on every element gives the same list. */
  lemma {:induction false} FilterSamePredicate<T>(s: seq<T>, p: T -> bool, q: T -> bool)
    requires forall i :: 0 <= i < |s| ==> p(s[i]) == q(s[i])
    ensures Filter(s, p) == Filter(s, q)
    decreases |s|
  {
    if |s| > 0 {
      FilterSamePredicate(s[1..], p, q);
    }
  }

  /** A comparator that always returns 0 leaves the order as it is. */
  lemma ConstantKeySorted(s: seq<Admin>)
    ensures SortBy(s, NoRank) == s
  {
    SortBySorted(s, NoRank);
  }

  /** With "all" and known statuses, approved accounts come before pending
      ones, and pending ones before denied ones. */
  lemma AllFilterGroupsByStatus(admins: seq<Admin>, i: nat, j: nat)
    requires AllKeyed(admins, Rank)
    requires i < j < |FilteredAdmins(Some(admins), "all").value|
    ensures var r := FilteredAdmins(Some(admins), "all").value;
      (r[j].status == "approved" ==> r[i].status == "approved")
      && (r[i].status == "denied" ==> r[j].status == "denied")
  {
    var r := FilteredAdmins(Some(admins), "all").value;
    KeyedPermutation(admins, r, Rank);
  }

  // ---------------------------------------------------------------------
  // Actions

  datatype Action = Approve | Deny | Remove

  /** The buttons shown for an account: approved accounts can be denied,
      denied accounts approved, any other account approved or denied; every
      account can be removed. */
  function OfferedActions(status: string): (r: seq<Action>)
    ensures Remove in r && r[|r| - 1] == Remove
    ensures Approve in r <==> status != "approved"
    ensures Deny in r <==> status != "denied"
  {
    if status == "approved" then [Deny, Remove]
    else if status == "denied" then [Approve, Remove]
    else [Approve, Deny, Remove]
  }

  // ---------------------------------------------------------------------
  // The confirmation dialog

  /** The dialog: open or not, the action chosen (None for none), the
      account it is for, and the error shown (None for `undefined`). */
  datatype ModalState = ModalState(isOpen: bool, action: Option<Action>, adminId: string, error: Option<string>)

  const ClosedModal := ModalState(false, None, "", Some(""))

  const GenericError := "Something went wrong. Please try again."

  /** `openModal`: the dialog opens for the action and account, with no error. */
  function OpenModal(action: Action, id: string): (r: ModalState)
    ensures r.isOpen && r.action == Some(action) && r.adminId == id && r.error == Some("")
  {
    ModalState(true, Some(action), id, Some(""))
  }

  /** `closeModal`: the dialog closes and its error clears; the action and
      account stay as they were. */
  function CloseModal(m: ModalState): (r: ModalState)
    ensures !r.isOpen && r.error == Some("")
    ensures r.action == m.action && r.adminId == m.adminId
  {
    m.(isOpen := false, error := Some(""))
  }

  /** What the call behind an action did: it returned a message (empty on
      success, the server's or a fixed message when the request failed),
      returned `undefined` (the server answered without `success` set), or
      threw. Without an action there is no call and the result is
      `undefined` too. */
  datatype Outcome = Returned(message: string) | ReturnedNothing | Threw

  /** The request the dialog sends for its action. */
  datatype AdminRequest = AdminRequest(action: Action, adminId: string)

  function ActionRequest(m: ModalState): Option<AdminRequest>
  {
    match m.action
    case None => None
    case Some(a) => Some(AdminRequest(a, m.adminId))
  }

  /** `handleModalAction`: on success (an empty message) the dialog closes
      and the accounts are fetched again; a non-empty message is shown in
      the dialog, which stays open; a throw shows the generic error; with
      no action, or a call that returned `undefined`, the error becomes
      `undefined` and the dialog stays open. */
  function HandleModalAction(m: ModalState, outcome: Outcome): (r: (ModalState, bool))
    ensures r.1 <==> m.action.Some? && outcome == Returned("")
    ensures r.1 ==> r.0 == CloseModal(m)
    ensures m.action.Some? && outcome.Returned? && outcome.message != "" ==> r == (m.(error := Some(outcome.message)), false)
    ensures m.action.Some? && outcome.Threw? ==> r == (m.(error := Some(GenericError)), false)
    ensures m.action.None? || outcome.ReturnedNothing? ==> r == (m.(error := None), false)
    ensures !r.1 ==> r.0.isOpen == m.isOpen && r.0.action == m.action && r.0.adminId == m.adminId
  {
    if m.action.None? then (m.(error := None), false)
    else
      match outcome
      case Threw => (m.(error := Some(GenericError)), false)
      case ReturnedNothing => (m.(error := None), false)
      case Returned(msg) =>
        if msg != "" then (m.(error := Some(msg)), false)
        else (CloseModal(m), true)
  }

  /** Confirming a button's action: the request names that action and
      account, and success closes the dialog with no error. */
  lemma ConfirmAction(action: Action, id: string)
    ensures ActionRequest(OpenModal(action, id)) == Some(AdminRequest(action, id))
    ensures HandleModalAction(OpenModal(action, id), Returned("")) == (ModalState(false, Some(action), id, Some("")), true)
  {
  }

  /** A failed attempt keeps the dialog on the same action and account, so
      confirming again sends the same request. */
  lemma RetryAfterFailure(m: ModalState, msg: string)
    requires m.action.Some? && msg != ""
    ensures ActionRequest(HandleModalAction(m, Returned(msg)).0) == ActionRequest(m)
    ensures HandleModalAction(m, Returned(msg)).0.error == Some(msg)
  {
  }

  /** A call that returned `undefined` leaves the dialog open on the same
      action and account with no message shown; confirming again sends the
      same request. */
  lemma SilentFailureKeepsDialog(m: ModalState)
    requires m.action.Some?
    ensures var r := HandleModalAction(m, ReturnedNothing);
      && !r.1 && r.0.isOpen == m.isOpen && r.0.error.None?
      && ActionRequest(r.0) == ActionRequest(m)
  {
  }
}
