/** The React client's top-level choice of screen: the login form when nobody
    is logged in, otherwise the dashboard for the user's role and department. */
module Routing {
  import opened Maybe
  import opened Js

  datatype Screen =
    | LoginForm
    | HRDashboard
    | ListingDashboard
    | OperationsDashboard
    | ProductResearchDashboard
    | ResourceManagerDashboard
    | EmployeeDashboard

  /** The stored user's fields the choice reads. */
  datatype CurrentUser = CurrentUser(role: Val, department: Val)

  predicate IsHead(u: CurrentUser) {
    StrictEq(u.role, Str("head")) || StrictEq(u.role, Str("manager"))
  }

  /** The `switch (currentUser.department)` for heads and managers. */
  function DepartmentScreen(department: Val): (s: Screen)
    ensures s != LoginForm
  {
    if StrictEq(department, Str("listing")) then ListingDashboard
    else if StrictEq(department, Str("operations")) then OperationsDashboard
    else if StrictEq(department, Str("product-research")) then ProductResearchDashboard
    else if StrictEq(department, Str("resource-manager")) then ResourceManagerDashboard
    else if StrictEq(department, Str("hr")) then HRDashboard
    else EmployeeDashboard
  }

  /** `getDashboardComponent` behind the login guard: the screen `App`
      renders for the stored user (`None` when logged out). */
  function DashboardFor(currentUser: Option<CurrentUser>): (s: Screen)
    ensures s == LoginForm <==> currentUser.None?
    ensures currentUser.Some? && StrictEq(currentUser.value.role, Str("hr")) ==> s == HRDashboard
  {
    match currentUser
    case None => LoginForm
    case Some(u) =>
      if StrictEq(u.role, Str("hr")) then HRDashboard
      else if IsHead(u) then DepartmentScreen(u.department)
      else EmployeeDashboard
  }

  /** Each department dashboard goes to exactly the heads and managers of that
      department; the HR dashboard to role "hr" and to heads and managers of
      department "hr". */
  lemma DepartmentDashboards(u: CurrentUser)
    ensures DashboardFor(Some(u)) == ListingDashboard <==> !StrictEq(u.role, Str("hr")) && IsHead(u) && u.department == Str("listing")
    ensures DashboardFor(Some(u)) == OperationsDashboard <==> !StrictEq(u.role, Str("hr")) && IsHead(u) && u.department == Str("operations")
    ensures DashboardFor(Some(u)) == ProductResearchDashboard <==>
      !StrictEq(u.role, Str("hr")) && IsHead(u) && u.department == Str("product-research")
    ensures DashboardFor(Some(u)) == ResourceManagerDashboard <==>
      !StrictEq(u.role, Str("hr")) && IsHead(u) && u.department == Str("resource-manager")
    ensures DashboardFor(Some(u)) == HRDashboard <==> u.role == Str("hr") || (IsHead(u) && u.department == Str("hr"))
  {
  }

  /** A logged-in user lands on the employee dashboard exactly when they are
      not HR and are not the head or manager of one of the five named departments. */
  lemma EmployeeDashboardIsTheDefault(u: CurrentUser)
    ensures DashboardFor(Some(u)) == EmployeeDashboard <==>
      u.role != Str("hr") &&
      (!IsHead(u) || u.department !in [Str("listing"), Str("operations"), Str("product-research"), Str("resource-manager"), Str("hr")])
  {
  }
}
