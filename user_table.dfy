/**
 * The user table as the services query it: rows keyed by id, `count` with a filter, and
 * `findUnique` on a unique column.
 */
module UserTable {
  import opened Wrappers
  import opened Users

  type Table = map<string, User>

  /** `prisma.user.count({ where })`: the number of rows that satisfy the filter. */
  function Count(users: Table, matches: User -> bool): (n: nat)
    ensures n > 0 <==> exists id :: id in users && matches(users[id])
  {
    var ids := set id | id in users && matches(users[id]);
    assert ids != {} <==> exists id :: id in users && matches(users[id]) by {
      if ids != {} {
        var id :| id in ids;
      }
      if exists id :: id in users && matches(users[id]) {
        var id :| id in users && matches(users[id]);
        assert id in ids;
      }
    }
    |ids|
  }

  /** The column holds a different value in every row. */
  predicate UniqueColumn(users: Table, column: User -> string) {
    forall a, b :: a in users && b in users && column(users[a]) == column(users[b]) ==> a == b
  }

  /** `findUnique` on a unique column: the row whose column holds `key`, or `null`. */
  function FindBy(users: Table, column: User -> string, key: string): (r: Option<User>)
    requires UniqueColumn(users, column)
    ensures r.Some? <==> exists id :: id in users && column(users[id]) == key
    ensures r.Some? ==> exists id :: id in users && users[id] == r.value && column(r.value) == key
  {
    if exists id :: id in users && column(users[id]) == key then
      var id :| id in users && column(users[id]) == key;
      Some(users[id])
    else None
  }
}
