/**
 * How the controller's actions relate to one another: what a read sees after
 * a write, and the policies that hold across the whole set of actions.
 */
module CustomerProperties {
  import opened CustomerModel
  import opened CustomerQueries
  import opened CustomerCommands

  /**
   * The not-found policy on an empty store: listing everything succeeds with
   * an empty list, while every keyed or filtered lookup is not found.
   */
  lemma EmptyStorePolicy(id: int, v: string)
    ensures GetAll(map[]) == FoundMany([])
    ensures GetByID(map[], id) == NotFound
    ensures GetByDNI(map[], v) == NotFound
    ensures GetByName(map[], v) == NotFound
    ensures GetByState(map[], v) == NotFound
    ensures GetByCity(map[], v) == NotFound
    ensures GetByEmail(map[], v) == NotFound
    ensures GetByPhoneNumber(map[], v) == NotFound
    ensures GetByAddress(map[], v) == NotFound
  {
  }

  /**
   * Create, then read back: the record under the new key has every attribute
   * of the payload, and no other key reads differently.
   */
  lemma CreateThenGetByID(t: Table, k: int, c: Customer, j: int)
    requires k !in t
    ensures GetByID(Inserted(t, k, c), k) == Found(c.(Id := k))
    ensures SameAttributes(GetByID(Inserted(t, k, c), k).customer, c)
    ensures j != k ==> GetByID(Inserted(t, k, c), j) == GetByID(t, j)
  {
  }

  /** A created record is listed by GetAll and by every lookup it satisfies. */
  lemma CreatedRecordIsListed(t: Table, k: int, c: Customer, q: Criterion)
    requires k !in t
    ensures c.(Id := k) in GetAll(Inserted(t, k, c)).customers
    ensures Satisfies(c, q) ==> Lookup(Inserted(t, k, c), q).FoundMany?
    ensures Satisfies(c, q) ==> c.(Id := k) in Lookup(Inserted(t, k, c), q).customers
  {
    var t' := Inserted(t, k, c);
    assert t'[k] == c.(Id := k);
    assert c.(Id := k) in t'.Values;
    assert Satisfies(c, q) <==> Satisfies(c.(Id := k), q);
  }

  /** Update, then read back: the stored record now equals the payload. */
  lemma EditThenGetByID(t: Table, c: Customer, j: int)
    requires Keyed(t) && c.Id in t
    ensures GetByID(Edited(t, c), c.Id) == Found(c)
    ensures j != c.Id ==> GetByID(Edited(t, c), j) == GetByID(t, j)
  {
  }

  /** Repeating the same update leaves the same table as doing it once. */
  lemma EditIdempotent(t: Table, c: Customer)
    requires c.Id in t
    ensures c.Id in Edited(t, c)
    ensures Edited(Edited(t, c), c) == Edited(t, c)
  {
  }

  /** Deleting one record leaves every other record readable and unchanged. */
  lemma DeleteIsolation(t: Table, a: int, b: int)
    requires a != b
    ensures GetByID(Removed(t, a), a) == NotFound
    ensures GetByID(Removed(t, a), b) == GetByID(t, b)
  {
  }

  /** A deleted record is no longer listed by GetAll nor by any lookup. */
  lemma DeletedRecordVanishes(t: Table, id: int, q: Criterion)
    requires Keyed(t) && id in t
    ensures t[id] !in GetAll(Removed(t, id)).customers
    ensures Lookup(Removed(t, id), q).FoundMany? ==> t[id] !in Lookup(Removed(t, id), q).customers
  {
  }

  /** A record is found by its phone number and by its mobile number. */
  lemma PhoneOrMobileFindsRecord(t: Table, x: Customer)
    requires x in t.Values
    ensures GetByPhoneNumber(t, x.Phone).FoundMany? && x in GetByPhoneNumber(t, x.Phone).customers
    ensures GetByPhoneNumber(t, x.Mobile).FoundMany? && x in GetByPhoneNumber(t, x.Mobile).customers
  {
  }

  /** A duplicate-free listing whose every entry is `x` is exactly `[x]`. */
  lemma SingleListing(s: seq<Customer>, x: Customer)
    requires Distinct(s) && |s| > 0
    requires forall y :: y in s ==> y == x
    ensures s == [x]
  {
    assert s[0] in s;
    assert s[|s| - 1] in s;
  }

  /**
   * With a single stored record, its phone number and its mobile number each
   * find exactly that record, and a number that is neither finds nothing.
   */
  lemma PhoneLookupOnSingleRecord(x: Customer, n: string)
    ensures GetByPhoneNumber(map[x.Id := x], x.Phone) == FoundMany([x])
    ensures GetByPhoneNumber(map[x.Id := x], x.Mobile) == FoundMany([x])
    ensures n != x.Phone && n != x.Mobile ==> GetByPhoneNumber(map[x.Id := x], n) == NotFound
  {
    var t := map[x.Id := x];
    assert Keyed(t);
    assert t.Values == {x} by {
      assert t[x.Id] == x;
    }
    PhoneOrMobileFindsRecord(t, x);
    SingleListing(GetByPhoneNumber(t, x.Phone).customers, x);
    SingleListing(GetByPhoneNumber(t, x.Mobile).customers, x);
  }
}
