/**
 * The read actions of the customer controller: list everything, find by key,
 * and the seven exact-match lookups. Each is a function of the table, so no
 * read can change the store.
 */
module CustomerQueries {
  import opened CustomerModel
  import opened KeyOrder

  /** The equality filters the lookups pass to the store. */
  datatype Criterion =
    | DniIs(dni: string)
    | NameIs(name: string)
    | StateIs(state: string)
    | CityIs(city: string)
    | EmailIs(email: string)
    | AddressIs(address: string)
    | PhoneOrMobileIs(number: string)

  /** Exact, case-sensitive equality on the chosen attribute(s). */
  predicate Satisfies(c: Customer, q: Criterion) {
    match q
    case DniIs(v) => c.DNI == v
    case NameIs(v) => c.Name == v
    case StateIs(v) => c.State == v
    case CityIs(v) => c.City == v
    case EmailIs(v) => c.Email == v
    case AddressIs(v) => c.Address == v
    case PhoneOrMobileIs(v) => c.Phone == v || c.Mobile == v
  }

  /** No key is listed twice. */
  ghost predicate NoRepeats(keys: seq<int>) {
    forall i, j :: 0 <= i < j < |keys| ==> keys[i] != keys[j]
  }

  /** `x` is stored under one of `keys`. */
  ghost predicate StoredUnder(t: Table, keys: seq<int>, x: Customer)
    requires forall k :: k in keys ==> k in t
  {
    exists k :: k in keys && t[k] == x
  }

  /** The records stored under `keys` that satisfy `q`, in the order of `keys`. */
  function Select(t: Table, keys: seq<int>, q: Criterion): (r: seq<Customer>)
    requires forall k :: k in keys ==> k in t
    ensures forall x :: x in r <==> StoredUnder(t, keys, x) && Satisfies(x, q)
    ensures Keyed(t) ==> forall x :: x in r ==> x.Id in keys
    ensures Keyed(t) && NoRepeats(keys) ==> Distinct(r)
  {
    if keys == [] then []
    else
      var k, tail := keys[0], keys[1..];
      var rest := Select(t, tail, q);
      assert keys == [k] + tail;
      assert forall x :: StoredUnder(t, keys, x) <==> t[k] == x || StoredUnder(t, tail, x);
      assert NoRepeats(keys) ==> NoRepeats(tail) && k !in tail;
      if Satisfies(t[k], q) then [t[k]] + rest else rest
  }

  /** The form the store's `Where` takes: every stored record matching `q`. */
  function Where(t: Table, q: Criterion): (r: seq<Customer>)
    ensures forall x :: x in r <==> x in t.Values && Satisfies(x, q)
    ensures Keyed(t) ==> Distinct(r)
  {
    var keys := SortedKeys(t.Keys);
    assert NoRepeats(keys);
    var r := Select(t, keys, q);
    forall x | x in t.Values ensures StoredUnder(t, keys, x) {
      KeyOfValue(t, x);
      var k :| k in t && t[k] == x;
      assert k in keys;
    }
    r
  }

  /** A filtered lookup: an empty match is reported as not found. */
  function Lookup(t: Table, q: Criterion): (r: Response)
    ensures r.NotFound? || r.FoundMany?
    ensures r.NotFound? <==> forall k :: k in t ==> !Satisfies(t[k], q)
    ensures r.FoundMany? ==> forall x :: x in r.customers <==> x in t.Values && Satisfies(x, q)
    ensures r.FoundMany? && Keyed(t) ==> Distinct(r.customers)
  {
    var hits := Where(t, q);
    if |hits| == 0 then
      assert forall k :: k in t ==> !Satisfies(t[k], q) by {
        forall k | k in t ensures !Satisfies(t[k], q) {
          assert t[k] in t.Values;
        }
      }
      NotFound
    else
      assert hits[0] in hits;
      FoundMany(hits)
  }

  /** GetAll: every stored record; an empty table is an empty list, never "not found". */
  function GetAll(t: Table): (r: Response)
    ensures r.FoundMany?
    ensures forall x :: x in r.customers <==> x in t.Values
    ensures |r.customers| == |t|
    ensures Keyed(t) ==> Distinct(r.customers)
  {
    var keys := SortedKeys(t.Keys);
    var rows := seq(|keys|, i requires 0 <= i < |keys| => t[keys[i]]);
    forall x | x in t.Values ensures x in rows {
      KeyOfValue(t, x);
      var k :| k in t && t[k] == x;
      var i :| 0 <= i < |keys| && keys[i] == k;
      assert rows[i] == x;
    }
    assert Keyed(t) ==> forall i :: 0 <= i < |rows| ==> rows[i].Id == keys[i];
    FoundMany(rows)
  }

  /** GetByID: the record stored under `id`, or not found. */
  function GetByID(t: Table, id: int): (r: Response)
    ensures r.Found? || r.NotFound?
    ensures r.Found? <==> id in t
    ensures r.Found? ==> r.customer == t[id]
    ensures r.Found? && Keyed(t) ==> r.customer.Id == id
  {
    if id in t then Found(t[id]) else NotFound
  }

  function GetByDNI(t: Table, dni: string): (r: Response)
    ensures r.NotFound? || r.FoundMany?
    ensures r.NotFound? <==> forall k :: k in t ==> t[k].DNI != dni
    ensures r.FoundMany? ==> forall x :: x in r.customers <==> x in t.Values && x.DNI == dni
    ensures r.FoundMany? && Keyed(t) ==> Distinct(r.customers)
  {
    Lookup(t, DniIs(dni))
  }

  function GetByName(t: Table, name: string): (r: Response)
    ensures r.NotFound? || r.FoundMany?
    ensures r.NotFound? <==> forall k :: k in t ==> t[k].Name != name
    ensures r.FoundMany? ==> forall x :: x in r.customers <==> x in t.Values && x.Name == name
    ensures r.FoundMany? && Keyed(t) ==> Distinct(r.customers)
  {
    Lookup(t, NameIs(name))
  }

  function GetByState(t: Table, state: string): (r: Response)
    ensures r.NotFound? || r.FoundMany?
    ensures r.NotFound? <==> forall k :: k in t ==> t[k].State != state
    ensures r.FoundMany? ==> forall x :: x in r.customers <==> x in t.Values && x.State == state
    ensures r.FoundMany? && Keyed(t) ==> Distinct(r.customers)
  {
    Lookup(t, StateIs(state))
  }

  function GetByCity(t: Table, city: string): (r: Response)
    ensures r.NotFound? || r.FoundMany?
    ensures r.NotFound? <==> forall k :: k in t ==> t[k].City != city
    ensures r.FoundMany? ==> forall x :: x in r.customers <==> x in t.Values && x.City == city
    ensures r.FoundMany? && Keyed(t) ==> Distinct(r.customers)
  {
    Lookup(t, CityIs(city))
  }

  function GetByEmail(t: Table, email: string): (r: Response)
    ensures r.NotFound? || r.FoundMany?
    ensures r.NotFound? <==> forall k :: k in t ==> t[k].Email != email
    ensures r.FoundMany? ==> forall x :: x in r.customers <==> x in t.Values && x.Email == email
    ensures r.FoundMany? && Keyed(t) ==> Distinct(r.customers)
  {
    Lookup(t, EmailIs(email))
  }

  /** A record is selected when either its phone or its mobile number matches. */
  function GetByPhoneNumber(t: Table, phoneNumber: string): (r: Response)
    ensures r.NotFound? || r.FoundMany?
    ensures r.NotFound? <==> forall k :: k in t ==> t[k].Phone != phoneNumber && t[k].Mobile != phoneNumber
    ensures r.FoundMany? ==> forall x :: x in r.customers <==>
      x in t.Values && (x.Phone == phoneNumber || x.Mobile == phoneNumber)
    ensures r.FoundMany? && Keyed(t) ==> Distinct(r.customers)
  {
    Lookup(t, PhoneOrMobileIs(phoneNumber))
  }

  function GetByAddress(t: Table, address: string): (r: Response)
    ensures r.NotFound? || r.FoundMany?
    ensures r.NotFound? <==> forall k :: k in t ==> t[k].Address != address
    ensures r.FoundMany? ==> forall x :: x in r.customers <==> x in t.Values && x.Address == address
    ensures r.FoundMany? && Keyed(t) ==> Distinct(r.customers)
  {
    Lookup(t, AddressIs(address))
  }
}
