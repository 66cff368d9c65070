/** backend/accounts/models.py: the user record, its two roles and the
    courier test. */
module AccountModels {
  import opened Common

  /** `User.Roles`, stored as the strings "CUSTOMER" and "COURIER". */
  datatype Role = Customer | Courier

  function RoleValue(r: Role): string
  {
    match r
    case Customer => "CUSTOMER"
    case Courier => "COURIER"
  }

  /** The role whose stored string is `s`, if any. */
  function ParseRole(s: string): (r: Option<Role>)
  {
    if s == "CUSTOMER" then Some(Customer)
    else if s == "COURIER" then Some(Courier)
    else None
  }

  lemma RoleValueRoundTrip(r: Role, s: string)
    ensures ParseRole(RoleValue(r)) == Some(r)
    ensures ParseRole(s) == Some(r) <==> s == RoleValue(r)
  {
  }

  /** The `capacity_kg` validator: at most 10 kg. */
  const MaxCapacityKg: nat := 10

  /** The fields of a user that the core reads or writes. `capacity_kg` is a
      positive-integer column, hence a `nat`; the coordinates are nullable. */
  datatype User = User(
    id: nat,
    username: string,
    email: string,
    firstName: string,
    lastName: string,
    role: Role,
    capacityKg: nat,
    phone: string,
    cne: string,
    lat: Option<real>,
    lng: Option<real>)

  /** A user created with every field left at its declared default. */
  function NewUser(id: nat, username: string, email: string): (u: User)
    ensures u.role == Customer && !IsCourier(u)
    ensures u.capacityKg == 10 && CapacityInRange(u)
    ensures u.phone == "" && u.cne == ""
    ensures u.lat.None? && u.lng.None?
  {
    User(id, username, email, "", "", Customer, 10, "", "", None, None)
  }

  /** The `MaxValueValidator(10)` on `capacity_kg`. */
  predicate CapacityInRange(u: User)
  {
    u.capacityKg <= MaxCapacityKg
  }

  /** `is_courier()`: the stored role string is "COURIER". */
  predicate IsCourier(u: User)
  {
    RoleValue(u.role) == "COURIER"
  }

  lemma IsCourierIffCourierRole(u: User)
    ensures IsCourier(u) <==> u.role == Courier
    ensures !IsCourier(u) <==> RoleValue(u.role) == "CUSTOMER"
  {
  }
}
