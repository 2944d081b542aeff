/** `UserRole`: the two roles the app can run as, stored by raw value. */
module Roles {
  import opened Common

  datatype UserRole = Reader | Staff

  /** The enum's `String` raw value. */
  function RawValue(role: UserRole): string {
    match role
    case Reader => "reader"
    case Staff => "staff"
  }

  /** `UserRole(rawValue:)`: nil for anything but the two raw values. */
  function FromRawValue(raw: string): (r: Option<UserRole>)
    ensures r.Some? <==> raw == "reader" || raw == "staff"
    ensures r.Some? ==> RawValue(r.value) == raw
  {
    if raw == "reader" then Some(Reader)
    else if raw == "staff" then Some(Staff)
    else None
  }

  /** Stored roles read back as themselves, and distinct roles are stored differently. */
  lemma RawValueRoundTrip(role: UserRole, other: UserRole)
    ensures FromRawValue(RawValue(role)) == Some(role)
    ensures role != other ==> RawValue(role) != RawValue(other)
  {
  }

  function DisplayName(role: UserRole): (r: string)
    ensures role.Reader? <==> r == "Reader"
    ensures role.Staff? <==> r == "Staff"
  {
    match role
    case Reader => "Reader"
    case Staff => "Staff"
  }

  predicate IsReader(role: UserRole) {
    role == Reader
  }

  predicate IsStaff(role: UserRole) {
    role == Staff
  }
}
