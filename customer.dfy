/**
 * The Customer entity, the result envelope the controller hands back, and the
 * table of customers keyed by their integer identifier.
 */
module CustomerModel {

  /** One row of the Customers table: the key and the eight text attributes. */
  datatype Customer = Customer(
    Id: int,
    Name: string,
    Address: string,
    DNI: string,
    Email: string,
    Phone: string,
    Mobile: string,
    State: string,
    City: string)

  /**
   * What an action returns once the HTTP wrapping is stripped: one record,
   * a list of records, "not found", or "no content" (a successful delete).
   */
  datatype Response =
    | Found(customer: Customer)
    | FoundMany(customers: seq<Customer>)
    | NotFound
    | NoContent

  /** The backing store: customer records by primary key. */
  type Table = map<int, Customer>

  /** Every record is stored under its own key. */
  ghost predicate Keyed(t: Table) {
    forall k :: k in t ==> t[k].Id == k
  }

  /** The eight non-key attributes of `a` and `b` agree. */
  predicate SameAttributes(a: Customer, b: Customer) {
    && a.Name == b.Name
    && a.Address == b.Address
    && a.DNI == b.DNI
    && a.Email == b.Email
    && a.Phone == b.Phone
    && a.Mobile == b.Mobile
    && a.State == b.State
    && a.City == b.City
  }

  /** Every stored record sits under some key. */
  lemma KeyOfValue(t: Table, x: Customer)
    requires x in t.Values
    ensures exists k :: k in t && t[k] == x
  {
    if forall k :: k in t ==> t[k] != x {
      assert false;
    }
  }

  /** No record appears twice in a listing. */
  ghost predicate Distinct(s: seq<Customer>) {
    forall i, j :: 0 <= i < j < |s| ==> s[i] != s[j]
  }
}
