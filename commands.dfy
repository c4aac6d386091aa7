/**
 * The write actions of the customer controller. The new table each action
 * leaves behind is described by a function (`Inserted`, `Edited`, `Removed`)
 * whose own contract says what changes and what does not; the controller's
 * methods update the table in place and are proved to produce exactly that.
 */
module CustomerCommands {
  import opened CustomerModel
  import opened KeyOrder

  /**
   * The eight field assignments of an update: every attribute comes from the
   * payload, whatever the stored record held; only the key is kept.
   */
  function Overwrite(stored: Customer, payload: Customer): (r: Customer)
    ensures r.Id == stored.Id
    ensures SameAttributes(r, payload)
    ensures r == payload.(Id := stored.Id)
  {
    stored.(Name := payload.Name, DNI := payload.DNI, Address := payload.Address,
            Phone := payload.Phone, Mobile := payload.Mobile, Email := payload.Email,
            State := payload.State, City := payload.City)
  }

  /** The table after the payload `c` is added under the fresh key `k`. */
  function Inserted(t: Table, k: int, c: Customer): (r: Table)
    requires k !in t
    ensures r.Keys == t.Keys + {k}
    ensures |r| == |t| + 1
    ensures r[k].Id == k && SameAttributes(r[k], c)
    ensures forall j :: j in t ==> r[j] == t[j]
    ensures Keyed(t) ==> Keyed(r)
  {
    t[k := c.(Id := k)]
  }

  /** The table after the record under `c.Id` is overwritten from `c`. */
  function Edited(t: Table, c: Customer): (r: Table)
    requires c.Id in t
    ensures r.Keys == t.Keys
    ensures r[c.Id].Id == t[c.Id].Id && SameAttributes(r[c.Id], c)
    ensures forall j :: j in t && j != c.Id ==> r[j] == t[j]
    ensures Keyed(t) ==> Keyed(r) && r[c.Id] == c
  {
    t[c.Id := Overwrite(t[c.Id], c)]
  }

  /** The table after the record under `id` is removed. */
  function Removed(t: Table, id: int): (r: Table)
    ensures r.Keys == t.Keys - {id}
    ensures forall j :: j in r ==> r[j] == t[j]
    ensures id in t ==> |r| == |t| - 1
    ensures Keyed(t) ==> Keyed(r)
  {
    t - {id}
  }

  /**
   * The controller together with the table it works on. `customers` is the
   * Customers set of the database context; each action commits once.
   */
  class CustomerController {
    var customers: Table

    ghost predicate Valid()
      reads this
    {
      Keyed(customers)
    }

    constructor (initial: Table)
      requires Keyed(initial)
      ensures Valid() && customers == initial
    {
      customers := initial;
    }

    /**
     * CreateEdit: an `Id` of 0 inserts the payload under a key the store
     * picks; any other `Id` overwrites the record stored under it, or is
     * rejected as not found. On success the payload itself is returned.
     */
    method CreateEdit(c: Customer) returns (r: Response)
      requires Valid()
      modifies this
      ensures Valid()
      ensures c.Id == 0 ==>
        && r.Found?
        && r.customer.Id > 0
        && r.customer.Id !in old(customers)
        && r.customer == c.(Id := r.customer.Id)
        && customers == Inserted(old(customers), r.customer.Id, c)
        && customers[r.customer.Id] == r.customer
      ensures c.Id != 0 && c.Id in old(customers) ==>
        && r == Found(c)
        && customers == Edited(old(customers), c)
        && customers[c.Id] == c
      ensures c.Id != 0 && c.Id !in old(customers) ==>
        && r == NotFound
        && customers == old(customers)
    {
      if c.Id == 0 {
        FreshKeyExists(customers.Keys);
        var k :| k > 0 && k !in customers;
        // The store writes the generated key back into the payload it tracks.
        var added := c.(Id := k);
        customers := customers[k := added];
        r := Found(added);
      } else {
        if c.Id !in customers {
          return NotFound;
        }
        var inDb := customers[c.Id];
        inDb := inDb.(Name := c.Name);
        inDb := inDb.(DNI := c.DNI);
        inDb := inDb.(Address := c.Address);
        inDb := inDb.(Phone := c.Phone);
        inDb := inDb.(Mobile := c.Mobile);
        inDb := inDb.(Email := c.Email);
        inDb := inDb.(State := c.State);
        inDb := inDb.(City := c.City);
        customers := customers[c.Id := inDb];
        r := Found(c);
      }
    }

    /** Delete: remove the record stored under `id`, or report not found. */
    method Delete(id: int) returns (r: Response)
      requires Valid()
      modifies this
      ensures Valid()
      ensures id in old(customers) ==> r == NoContent && customers == Removed(old(customers), id)
      ensures id !in old(customers) ==> r == NotFound && customers == old(customers)
    {
      if id !in customers {
        return NotFound;
      }
      customers := customers - {id};
      r := NoContent;
    }
  }
}
