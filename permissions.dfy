/** The fixed role-based access table of the campus app: eight roles, seven
    sections, and for each section the roles that may view it and the roles
    that may edit it. */
module Permissions {
  import opened Wrappers

  datatype Role = Admin | Clerk | Accounts | Warden | ExamCell | Librarian | Transport | Viewer

  /** The sections ("tabs") of the app. */
  datatype TabKey = Admissions | Fees | Hostel | Exams | Library | Transport | Dashboard

  /** `ROLES`, in the order the role switcher lists them. */
  const Roles: seq<Role> := [Admin, Clerk, Accounts, Warden, ExamCell, Librarian, Role.Transport, Viewer]

  /** One row of `PERMISSIONS`. */
  datatype Access = Access(view: seq<Role>, edit: seq<Role>)

  /** `PERMISSIONS[tab]`, the literal table. */
  function PermissionsOf(tab: TabKey): Access {
    match tab
    case Admissions => Access([Admin, Clerk], [Admin, Clerk])
    case Fees => Access([Admin, Accounts], [Admin, Accounts])
    case Hostel => Access([Admin, Warden], [Admin, Warden])
    case Exams => Access([Admin, ExamCell], [Admin, ExamCell])
    case Library => Access([Admin, Librarian], [Admin, Librarian])
    case Transport => Access([Admin, Role.Transport], [Admin, Role.Transport])
    case Dashboard =>
      Access([Admin, Clerk, Accounts, Warden, ExamCell, Librarian, Role.Transport, Viewer], [Admin])
  }

  /** `canView`: membership in the section's view list. */
  predicate CanView(tab: TabKey, role: Role) {
    role in PermissionsOf(tab).view
  }

  /** `canEdit`: membership in the section's edit list. */
  predicate CanEdit(tab: TabKey, role: Role) {
    role in PermissionsOf(tab).edit
  }

  /** The one role, besides Admin, that runs a functional section; the
      dashboard has none. This is the table's intent. */
  function SectionRole(tab: TabKey): Option<Role> {
    match tab
    case Admissions => Some(Clerk)
    case Fees => Some(Accounts)
    case Hostel => Some(Warden)
    case Exams => Some(ExamCell)
    case Library => Some(Librarian)
    case Transport => Some(Role.Transport)
    case Dashboard => None
  }

  /** `ROLES` lists every role exactly once. */
  lemma RolesComplete(role: Role)
    ensures role in Roles
    ensures forall i, j :: 0 <= i < j < |Roles| ==> Roles[i] != Roles[j]
  {
  }

  /** Edit rights are exactly Admin plus the section's own role. */
  lemma EditExact(tab: TabKey, role: Role)
    ensures CanEdit(tab, role) <==> role == Admin || SectionRole(tab) == Some(role)
  {
  }

  /** View rights: every role on the dashboard, otherwise the same two roles
      that may edit. */
  lemma ViewExact(tab: TabKey, role: Role)
    ensures tab == Dashboard ==> CanView(tab, role)
    ensures tab != Dashboard ==> (CanView(tab, role) <==> CanEdit(tab, role))
  {
  }

  /** Edit implies view in every section; on the dashboard only Admin edits. */
  lemma EditWithinView(tab: TabKey, role: Role)
    ensures CanEdit(tab, role) ==> CanView(tab, role)
    ensures CanEdit(Dashboard, role) <==> role == Admin
  {
  }

  /** Admin may edit every section; Viewer may edit none. */
  lemma AdminAndViewer(tab: TabKey)
    ensures CanEdit(tab, Admin)
    ensures !CanEdit(tab, Viewer)
    ensures tab != Dashboard ==> !CanView(tab, Viewer)
  {
  }
}
