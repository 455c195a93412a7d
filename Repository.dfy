/** The to-do store: a JpaRepository<Todo, Long> plus its one derived query. */
module Repository {
  import opened Wrappers
  import opened Entity

  /** r lists the rows of m: each element is a row of m, each row of m is an
      element, and no element is repeated. Nothing is said about the order. */
  predicate Enumerates(r: seq<Todo>, m: map<int, Todo>) {
    && (forall j :: 0 <= j < |r| ==> r[j].id in m && m[r[j].id] == r[j])
    && (forall k :: k in m ==> m[k] in r)
    && (forall a, b :: 0 <= a < b < |r| ==> r[a] != r[b])
  }

  /** The rows of m whose priority is exactly p: the condition findByPriority
      derives from its name. */
  function WithPriority(m: map<int, Todo>, p: string): (sub: map<int, Todo>)
    ensures forall k :: k in sub <==> k in m && m[k].priority == Some(p)
    ensures forall k :: k in sub ==> sub[k] == m[k]
  {
    map k | k in m && m[k].priority == Some(p) :: m[k]
  }

  /** A listing without repetitions holds each of its elements once, so two
      listings with the same elements are equal as multisets. */
  lemma {:induction false} DistinctListingIsSet(r: seq<Todo>)
    requires forall a, b :: 0 <= a < b < |r| ==> r[a] != r[b]
    ensures forall t :: multiset(r)[t] == (if t in r then 1 else 0)
  {
    if r != [] {
      DistinctListingIsSet(r[1..]);
      assert r == [r[0]] + r[1..];
      assert r[0] !in r[1..];
    }
  }

  /** A table of to-do rows keyed by id. Ids come from an identity counter,
      so they start at 1, are never reused, and each row carries its own key. */
  class TodoRepository {
    var rows: map<int, Todo>
    var nextId: int

    ghost predicate Valid()
      reads this
    {
      && 1 <= nextId
      && forall k :: k in rows ==> rows[k].id == k && 1 <= k < nextId
    }

    constructor ()
      ensures Valid() && rows == map[]
    {
      rows := map[];
      nextId := 1;
    }

    /** save: a record whose id names a stored row replaces that row; any other
        record is inserted under a freshly generated id. The stored record is
        returned; nothing but its id is changed on the way. */
    method Save(t: Todo) returns (saved: Todo)
      requires Valid()
      modifies this
      ensures Valid()
      ensures t.id in old(rows) ==> saved == t
      ensures t.id !in old(rows) ==> saved == t.(id := saved.id) && saved.id !in old(rows)
      ensures t.id in old(rows) ==> nextId == old(nextId)
      ensures rows == old(rows)[saved.id := saved]
    {
      if t.id in rows {
        saved := t;
      } else {
        saved := t.(id := nextId);
        nextId := nextId + 1;
      }
      rows := rows[saved.id := saved];
    }

    /** findById: the stored row, or an empty Optional. */
    method FindById(id: int) returns (r: Option<Todo>)
      requires Valid()
      ensures r.Some? <==> id in rows
      ensures r.Some? ==> r.value == rows[id] && r.value.id == id
    {
      if id in rows {
        r := Some(rows[id]);
      } else {
        r := None;
      }
    }

    /** existsById: true exactly when findById would find a row. */
    method ExistsById(id: int) returns (b: bool)
      ensures b <==> id in rows
    {
      b := id in rows;
    }

    /** deleteById: removes the row if there is one; no other row changes. */
    method DeleteById(id: int)
      requires Valid()
      modifies this
      ensures Valid()
      ensures rows == old(rows) - {id} && nextId == old(nextId)
    {
      rows := rows - {id};
    }

    /** findAll: every stored row exactly once. The table is scanned in id
        order, but no order is promised to callers. */
    method FindAll() returns (r: seq<Todo>)
      requires Valid()
      ensures Enumerates(r, rows)
    {
      var table, bound := rows, nextId;
      r := [];
      var i := 1;
      while i < bound
        invariant 1 <= i <= bound
        invariant forall j :: 0 <= j < |r| ==> r[j].id in table && table[r[j].id] == r[j] && r[j].id < i
        invariant forall k :: k in table && k < i ==> table[k] in r
        invariant forall a, b :: 0 <= a < b < |r| ==> r[a].id < r[b].id
      {
        if i in table {
          r := r + [table[i]];
        }
        i := i + 1;
      }
    }

    /** findByPriority: exactly the stored rows whose priority equals p, each
        once, in no promised order. The match is exact and case-sensitive. */
    method FindByPriority(p: string) returns (r: seq<Todo>)
      requires Valid()
      ensures Enumerates(r, WithPriority(rows, p))
    {
      var table, bound := rows, nextId;
      r := [];
      var i := 1;
      while i < bound
        invariant 1 <= i <= bound
        invariant forall j :: 0 <= j < |r| ==> r[j].id in table && table[r[j].id] == r[j] && r[j].id < i
        invariant forall j :: 0 <= j < |r| ==> r[j].priority == Some(p)
        invariant forall k :: k in table && k < i && table[k].priority == Some(p) ==> table[k] in r
        invariant forall a, b :: 0 <= a < b < |r| ==> r[a].id < r[b].id
      {
        if i in table && table[i].priority == Some(p) {
          r := r + [table[i]];
        }
        i := i + 1;
      }
    }
  }
}
