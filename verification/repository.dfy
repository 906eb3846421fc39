/**
 * ClientRepository: the JPA repository and the `clients` table behind it,
 * as an in-memory store. Rows are keyed by their generated identity; the
 * identity sequence only grows. Queries without an ORDER BY list rows in
 * identity order.
 */
module Repository {
  import opened Basics
  import opened Dates
  import opened ClientEntity
  import opened ClientDto
  import opened Statistics

  /** The table: rows by id, and the next identity the database will hand out. */
  datatype Store = Store(rows: map<int, Client>, nextId: int)

  /** An empty table; IDENTITY columns start at 1. */
  const EmptyStore: Store := Store(map[], 1)

  /** `length = 100` on `first_name` and `last_name`. */
  const NameLength: nat := 100

  /** What every stored row carries: the `nullable = false` columns hold values. */
  predicate Stored(c: Client)
  {
    c.firstName.Some? && c.lastName.Some? && c.age.Some? && c.birthDate.Some? && c.createdAt.Some?
  }

  /** The table invariant: each row sits under its own id, below the next identity. */
  predicate WellFormed(s: Store)
  {
    && s.nextId >= 1
    && forall k :: k in s.rows ==> 1 <= k < s.nextId && s.rows[k].id == Some(k) && Stored(s.rows[k])
  }

  /**
   * What an insert or update must satisfy to be written: the entity's Bean
   * Validation constraints (@NotBlank names, @NotNull @Positive age, @NotNull
   * @Past birth date), the column lengths, and a creation date.
   */
  predicate Persistable(c: Client, today: Date)
  {
    && NotBlank(c.firstName) && |c.firstName.value| <= NameLength
    && NotBlank(c.lastName) && |c.lastName.value| <= NameLength
    && c.age.Some? && c.age.value > 0
    && c.birthDate.Some? && Before(c.birthDate.value, today)
    && c.createdAt.Some?
  }

  datatype Saved = Saved(store: Store, client: Client)

  /**
   * `save`: a transient client is inserted under the next identity; a client
   * with an id overwrites that row, except the `updatable = false` creation
   * date. `None` is the persistence exception: a constraint violation, or an
   * id with no row behind it.
   */
  function Save(s: Store, c: Client, today: Date): (r: Option<Saved>)
    ensures r.Some? <==> Persistable(c, today) && (c.id.None? || c.id.value in s.rows)
    ensures r.Some? && c.id.None? ==>
      && r.value.client == c.(id := Some(s.nextId))
      && r.value.store == Store(s.rows[s.nextId := r.value.client], s.nextId + 1)
    ensures r.Some? && c.id.Some? ==>
      && r.value.client == c.(createdAt := s.rows[c.id.value].createdAt)
      && r.value.store == Store(s.rows[c.id.value := r.value.client], s.nextId)
    ensures r.Some? && WellFormed(s) ==> WellFormed(r.value.store)
  {
    if !Persistable(c, today) then None
    else if c.id.None? then
      var row := c.(id := Some(s.nextId));
      Some(Saved(Store(s.rows[s.nextId := row], s.nextId + 1), row))
    else if c.id.value !in s.rows then None
    else
      var row := c.(createdAt := s.rows[c.id.value].createdAt);
      Some(Saved(Store(s.rows[c.id.value := row], s.nextId), row))
  }

  function FindById(s: Store, id: int): (r: Option<Client>)
    ensures r.Some? <==> id in s.rows
    ensures r.Some? ==> r.value == s.rows[id]
  {
    if id in s.rows then Some(s.rows[id]) else None
  }

  predicate ExistsById(s: Store, id: int)
  {
    id in s.rows
  }

  /** `deleteById`: the row goes, nothing else changes; an absent id is ignored. */
  function DeleteById(s: Store, id: int): (r: Store)
    ensures id !in r.rows
    ensures forall k :: k in s.rows && k != id ==> k in r.rows && r.rows[k] == s.rows[k]
    ensures forall k :: k in r.rows ==> k in s.rows
    ensures r.nextId == s.nextId
    ensures WellFormed(s) ==> WellFormed(r)
  {
    Store(s.rows - {id}, s.nextId)
  }

  /** The rows whose ids lie in `[lo, hi)`, in id order. */
  function Listing(rows: map<int, Client>, lo: int, hi: int): (r: seq<Client>)
    ensures forall c :: c in r <==> exists k :: lo <= k < hi && k in rows && rows[k] == c
    decreases hi - lo
  {
    if lo >= hi then []
    else (if lo in rows then [rows[lo]] else []) + Listing(rows, lo + 1, hi)
  }

  /** Some row of the table is `c`. */
  predicate InTable(s: Store, c: Client)
  {
    exists k :: k in s.rows && s.rows[k] == c
  }

  /** `findAll`. */
  function FindAll(s: Store): (r: seq<Client>)
    ensures WellFormed(s) ==> forall c :: c in r <==> InTable(s, c)
  {
    Listing(s.rows, 1, s.nextId)
  }

  /** `countTotalClients`: `SELECT COUNT(c)`. */
  function Count(s: Store): nat
  {
    |s.rows|
  }

  function KeysIn(rows: map<int, Client>, lo: int, hi: int): set<int>
  {
    set k | k in rows && lo <= k < hi
  }

  lemma {:induction false} ListingSize(rows: map<int, Client>, lo: int, hi: int)
    ensures |Listing(rows, lo, hi)| == |KeysIn(rows, lo, hi)|
    decreases hi - lo
  {
    if lo >= hi {
      assert KeysIn(rows, lo, hi) == {};
    } else {
      ListingSize(rows, lo + 1, hi);
      var head := if lo in rows then {lo} else {};
      assert KeysIn(rows, lo, hi) == head + KeysIn(rows, lo + 1, hi);
      assert head !! KeysIn(rows, lo + 1, hi);
    }
  }

  /** `findAll` lists every row exactly once: as many entries as `countTotalClients`. */
  lemma FindAllCount(s: Store)
    requires WellFormed(s)
    ensures |FindAll(s)| == Count(s)
  {
    ListingSize(s.rows, 1, s.nextId);
    assert KeysIn(s.rows, 1, s.nextId) == s.rows.Keys;
  }

  /** The age column of a row; stored rows always carry one. */
  function AgeOf(c: Client): Int32
  {
    if c.age.Some? then c.age.value else 0
  }

  /** `getAllAges`: `SELECT c.age`, one entry per row. */
  function GetAllAges(s: Store): (ages: seq<Int32>)
    ensures |ages| == |FindAll(s)|
    ensures forall i :: 0 <= i < |ages| ==> ages[i] == AgeOf(FindAll(s)[i])
  {
    var all := FindAll(s);
    seq(|all|, i requires 0 <= i < |all| => AgeOf(all[i]))
  }

  /** `getAllAges` has one entry per stored client. */
  lemma AgesOnePerClient(s: Store)
    requires WellFormed(s)
    ensures |GetAllAges(s)| == Count(s)
  {
    FindAllCount(s);
  }

  /** `calculateAverageAge`: `SELECT AVG(c.age)`, null on an empty table. */
  function CalculateAverageAge(s: Store): (avg: Option<real>)
    ensures avg.None? <==> FindAll(s) == []
    ensures avg.Some? ==> avg.value * |FindAll(s)| as real == Sum(GetAllAges(s)) as real
  {
    if FindAll(s) == [] then None else Some(Mean(GetAllAges(s)))
  }

  /** An exact first-and-last-name match; a null parameter matches no stored row. */
  predicate SameName(c: Client, firstName: Option<string>, lastName: Option<string>)
  {
    firstName.Some? && lastName.Some? && c.firstName == firstName && c.lastName == lastName
  }

  /** The three outcomes of an `Optional` finder: empty, one row, or more rows than it can return. */
  datatype NameLookup = NoMatch | Unique(client: Client) | NotUnique

  /** `findByFirstNameAndLastName`. */
  function FindByFirstNameAndLastName(s: Store, firstName: Option<string>, lastName: Option<string>): (r: NameLookup)
    ensures WellFormed(s) ==> (r.NoMatch? <==> forall k :: k in s.rows ==> !SameName(s.rows[k], firstName, lastName))
    ensures r.Unique? ==> r.client in FindAll(s) && SameName(r.client, firstName, lastName)
    ensures WellFormed(s) && r.Unique? ==>
      forall k :: k in s.rows && SameName(s.rows[k], firstName, lastName) ==> s.rows[k] == r.client
  {
    var matches := Filter(FindAll(s), c => SameName(c, firstName, lastName));
    if |matches| == 0 then
      assert WellFormed(s) ==> forall k :: k in s.rows ==> s.rows[k] in FindAll(s);
      NoMatch
    else if |matches| == 1 then
      assert forall c :: c in matches ==> c == matches[0];
      assert WellFormed(s) ==> forall k :: k in s.rows ==> s.rows[k] in FindAll(s);
      assert WellFormed(s) ==> InTable(s, matches[0]);
      Unique(matches[0])
    else
      assert matches[0] in FindAll(s);
      NotUnique
  }

  /** The case-insensitive substring test of `...ContainingIgnoreCase`. */
  predicate FirstNameContains(c: Client, query: string)
  {
    c.firstName.Some? && Contains(ToLower(c.firstName.value), ToLower(query))
  }

  /** `findByFirstNameContainingIgnoreCase`: exactly the rows whose first name contains the query, ignoring case. */
  function FindByFirstNameContainingIgnoreCase(s: Store, query: string): (r: seq<Client>)
    ensures WellFormed(s) ==> forall c :: c in r <==> InTable(s, c) && FirstNameContains(c, query)
  {
    Filter(FindAll(s), c => FirstNameContains(c, query))
  }

  /** `c.age BETWEEN :minAge AND :maxAge`, inclusive at both ends; a null age is never between. */
  predicate AgeBetween(c: Client, minAge: int, maxAge: int)
  {
    c.age.Some? && minAge <= c.age.value <= maxAge
  }

  function AgeKey(c: Client): int
  {
    AgeOf(c)
  }

  /** `findByAgeRange`: the rows aged within the inclusive range, ordered by age. */
  function FindByAgeRange(s: Store, minAge: int, maxAge: int): (r: seq<Client>)
    ensures SortedBy(r, AgeKey)
    ensures forall c :: c in r ==> AgeBetween(c, minAge, maxAge)
    ensures WellFormed(s) ==> forall c :: InTable(s, c) && AgeBetween(c, minAge, maxAge) ==> c in r
    ensures multiset(r) == multiset(Filter(FindAll(s), c => AgeBetween(c, minAge, maxAge)))
  {
    var found := Filter(FindAll(s), c => AgeBetween(c, minAge, maxAge));
    var sorted := SortBy(found, AgeKey);
    assert forall c :: c in sorted <==> c in found by {
      forall c ensures c in sorted <==> c in found {
        assert c in sorted <==> c in multiset(sorted);
        assert c in found <==> c in multiset(found);
      }
    }
    sorted
  }

  /** An insert adds exactly one row, under the old next identity, and leaves the others untouched. */
  lemma InsertAddsOneRow(s: Store, c: Client, today: Date)
    requires WellFormed(s) && c.id.None? && Persistable(c, today)
    ensures var r := Save(s, c, today).value;
      && FindById(r.store, s.nextId) == Some(r.client)
      && s.nextId !in s.rows
      && Count(r.store) == Count(s) + 1
      && forall k :: k in s.rows ==> FindById(r.store, k) == FindById(s, k)
  {
  }

  /** A delete of a present row removes exactly that row. */
  lemma DeleteRemovesOneRow(s: Store, id: int)
    requires id in s.rows
    ensures !ExistsById(DeleteById(s, id), id)
    ensures Count(DeleteById(s, id)) == Count(s) - 1
  {
    assert s.rows.Keys == DeleteById(s, id).rows.Keys + {id};
  }
}
