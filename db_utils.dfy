/**
  The two SQLite tables of the application, held in memory.

  DatabaseManager owns the `product` table (an AUTOINCREMENT id, the user
  name, item name, expiry type and expiry date text) and the directory of
  `{id}.png` thumbnails, here the set of ids that have a file. UserManager
  owns the `users` table, a list of names with SQLite's implicit rowid.
 */
module DbUtils {
  import opened Seqs
  import opened Collation

  // ---- product rows ----

  datatype Product = Product(id: nat, userName: string, itemName: string, expiryType: string, expiryDate: string)

  function IdIsNot(id: nat): Product -> bool
  {
    (p: Product) => p.id != id
  }

  function IdNotIn(ids: set<nat>): Product -> bool
  {
    (p: Product) => p.id !in ids
  }

  function OwnedBy(userName: string): Product -> bool
  {
    (p: Product) => p.userName == userName
  }

  /** `DELETE FROM product WHERE id = ?` */
  function WithoutId(rows: seq<Product>, id: nat): (r: seq<Product>)
  {
    Filter(rows, IdIsNot(id))
  }

  /** The rows left after deleting every id of `ids`. */
  function WithoutIds(rows: seq<Product>, ids: set<nat>): (r: seq<Product>)
  {
    Filter(rows, IdNotIn(ids))
  }

  function EarlierOrSameDate(): (Product, Product) -> bool
  {
    (p: Product, q: Product) => TextLe(p.expiryDate, q.expiryDate)
  }

  function DifferentIds(): (Product, Product) -> bool
  {
    (p: Product, q: Product) => p.id != q.id
  }

  /** Ascending by expiry date text, as `ORDER BY expiry_date` returns rows. */
  ghost predicate SortedByDate(rows: seq<Product>)
  {
    forall i, j :: 0 <= i < j < |rows| ==> TextLe(rows[i].expiryDate, rows[j].expiryDate)
  }

  ghost predicate UniqueIds(rows: seq<Product>)
  {
    forall i, j :: 0 <= i < j < |rows| ==> rows[i].id != rows[j].id
  }

  /** A row not later than every row of a sorted sequence can go in front of it. */
  lemma LeadsSorted(x: Product, rows: seq<Product>)
    requires SortedByDate(rows)
    requires forall q :: q in rows ==> TextLe(x.expiryDate, q.expiryDate)
    ensures SortedByDate([x] + rows)
  {
    forall i, j | 0 <= i < j < |rows| + 1 ensures TextLe(([x] + rows)[i].expiryDate, ([x] + rows)[j].expiryDate) {
      if i == 0 {
        assert rows[j - 1] in rows;
      }
    }
  }

  lemma BelowHeadBelowAll(x: Product, rows: seq<Product>)
    requires SortedByDate(rows) && rows != [] && TextLe(x.expiryDate, rows[0].expiryDate)
    ensures forall q :: q in rows ==> TextLe(x.expiryDate, q.expiryDate)
  {
    forall q | q in rows ensures TextLe(x.expiryDate, q.expiryDate) {
      var k :| 0 <= k < |rows| && rows[k] == q;
      if k > 0 {
        TextLeTransitive(x.expiryDate, rows[0].expiryDate, q.expiryDate);
      }
    }
  }

  lemma HeadBelowInserted(p: Product, rows: seq<Product>, tail: seq<Product>)
    requires SortedByDate(rows) && rows != [] && TextLe(rows[0].expiryDate, p.expiryDate)
    requires multiset(tail) == multiset(rows[1..]) + multiset{p}
    ensures forall q :: q in tail ==> TextLe(rows[0].expiryDate, q.expiryDate)
  {
    forall q | q in tail ensures TextLe(rows[0].expiryDate, q.expiryDate) {
      assert q in multiset(tail);
      if q != p {
        assert q in rows[1..];
        var k :| 0 <= k < |rows[1..]| && rows[1..][k] == q;
        assert rows[k + 1] == q;
      }
    }
  }

  /** Insert `p` into date-sorted `rows` in front of the first row not earlier than it. */
  function InsertByDate(p: Product, rows: seq<Product>): (r: seq<Product>)
    requires SortedByDate(rows)
    ensures SortedByDate(r)
    ensures multiset(r) == multiset(rows) + multiset{p}
  {
    if rows == [] then [p]
    else if TextLe(p.expiryDate, rows[0].expiryDate) then
      BelowHeadBelowAll(p, rows);
      LeadsSorted(p, rows);
      [p] + rows
    else
      var tail := InsertByDate(p, rows[1..]);
      assert rows == [rows[0]] + rows[1..];
      TextLeTotal(p.expiryDate, rows[0].expiryDate);
      HeadBelowInserted(p, rows, tail);
      LeadsSorted(rows[0], tail);
      [rows[0]] + tail
  }

  /** An ordering of `rows` by expiry date text (insertion sort). */
  function SortByDate(rows: seq<Product>): (r: seq<Product>)
    ensures SortedByDate(r)
    ensures multiset(r) == multiset(rows)
  {
    if rows == [] then []
    else
      assert rows == [rows[0]] + rows[1..];
      InsertByDate(rows[0], SortByDate(rows[1..]))
  }

  /**
    `SELECT * FROM product WHERE user_name = ? ORDER BY expiry_date`: every
    row of the user, each as often as it is stored, and no other row,
    ascending by expiry date text. The order among equal dates is left open.
   */
  function SelectByUser(rows: seq<Product>, userName: string): (r: seq<Product>)
    ensures SortedByDate(r)
    ensures forall p {:trigger multiset(r)[p]} :: multiset(r)[p] == if p.userName == userName then multiset(rows)[p] else 0
  {
    SortByDate(Filter(rows, OwnedBy(userName)))
  }

  /** Deleting the same id twice is deleting it once. */
  lemma DeleteIdempotent(rows: seq<Product>, id: nat)
    ensures WithoutId(WithoutId(rows, id), id) == WithoutId(rows, id)
  {
    FilterIdempotent(rows, IdIsNot(id));
  }

  /**
    With unique ids, deleting the id of the row at `k` cuts out that row and
    keeps every other row in place.
   */
  lemma DeleteRemovesOnlyThatRow(rows: seq<Product>, k: nat)
    requires UniqueIds(rows) && k < |rows|
    ensures WithoutId(rows, rows[k].id) == rows[..k] + rows[k + 1..]
  {
    FilterDropsOne(rows, k, IdIsNot(rows[k].id));
  }

  /** Deleting an id no row holds changes nothing. */
  lemma DeleteAbsentId(rows: seq<Product>, id: nat)
    requires forall i :: 0 <= i < |rows| ==> rows[i].id != id
    ensures WithoutId(rows, id) == rows
  {
    FilterKeepsAll(rows, IdIsNot(id));
  }

  /** Deleting the ids one after another removes exactly the rows whose id was listed. */
  lemma DeleteOneMore(rows: seq<Product>, ids: set<nat>, id: nat)
    ensures WithoutId(WithoutIds(rows, ids), id) == WithoutIds(rows, ids + {id})
  {
    FilterFilter(rows, IdNotIn(ids), IdIsNot(id), IdNotIn(ids + {id}));
  }

  lemma {:induction false} DeletePreservesUniqueIds(rows: seq<Product>, id: nat)
    requires UniqueIds(rows)
    ensures UniqueIds(WithoutId(rows, id))
  {
    assert Pairwise(rows, DifferentIds());
    FilterPairwise(rows, IdIsNot(id), DifferentIds());
    assert Pairwise(WithoutId(rows, id), DifferentIds());
  }

  /** After inserting `p`, selecting its user returns `p` with the fields it was inserted with. */
  lemma InsertedRowIsSelected(rows: seq<Product>, p: Product)
    ensures p in SelectByUser(rows + [p], p.userName)
  {
    var r := SelectByUser(rows + [p], p.userName);
    assert multiset(rows + [p])[p] >= 1;
    assert multiset(r)[p] >= 1;
  }

  /** After deleting `id`, selecting any user returns no row with that id. */
  lemma DeletedRowIsNotSelected(rows: seq<Product>, id: nat, userName: string)
    ensures forall p :: p in SelectByUser(WithoutId(rows, id), userName) ==> p.id != id
  {
    var r := SelectByUser(WithoutId(rows, id), userName);
    forall p | p in r ensures p.id != id {
      assert multiset(r)[p] > 0;
      assert multiset(WithoutId(rows, id))[p] > 0;
    }
  }

  /** The product table with its AUTOINCREMENT counter and the thumbnail directory. */
  class DatabaseManager {
    /** Whether `CREATE TABLE` has run. */
    var hasTable: bool
    /** The rows in rowid order. */
    var rows: seq<Product>
    /** The id the next insert receives: one more than the largest id ever handed out. */
    var nextId: nat
    /** Every id ever handed out, deleted rows included. */
    ghost var issued: set<nat>
    /** The ids that have a `{id}.png` file in the image directory. */
    var images: set<nat>

    ghost predicate Valid()
      reads this
    {
      (!hasTable ==> rows == []) &&
      1 <= nextId &&
      UniqueIds(rows) &&
      (forall p :: p in rows ==> p.id in issued) &&
      (forall id :: id in issued ==> 1 <= id < nextId)
    }

    /** A database file that does not exist yet. */
    constructor ()
      ensures Valid() && !hasTable && rows == [] && issued == {} && images == {}
      ensures nextId == 1
    {
      hasTable := false;
      rows := [];
      nextId := 1;
      issued := {};
      images := {};
    }

    /** `CREATE TABLE IF NOT EXISTS product`: an existing table keeps all its rows. */
    method Create()
      requires Valid()
      modifies this`hasTable
      ensures Valid() && hasTable
      ensures rows == old(rows) && nextId == old(nextId) && images == old(images)
    {
      hasTable := true;
    }

    /**
      Insert one row and return its id. AUTOINCREMENT never reuses an id, so
      the new id differs from every id handed out before, deleted rows
      included.
     */
    method Insert(userName: string, itemName: string, expiryType: string, expiryDate: string) returns (id: nat)
      requires Valid() && hasTable
      modifies this`rows, this`nextId, this`issued
      ensures Valid()
      ensures id !in old(issued) && forall i :: 0 <= i < |old(rows)| ==> old(rows)[i].id != id
      ensures id == old(nextId) && nextId == id + 1 && issued == old(issued) + {id}
      ensures rows == old(rows) + [Product(id, userName, itemName, expiryType, expiryDate)]
    {
      id := nextId;
      rows := rows + [Product(id, userName, itemName, expiryType, expiryDate)];
      issued := issued + {id};
      nextId := nextId + 1;
    }

    /**
      fetch_all_products: the rows of `userName`, each exactly as often as
      stored and no others, ascending by expiry date text. Without the
      table the query raises, so the table must exist.
     */
    function FetchAllProducts(userName: string): (r: seq<Product>)
      requires hasTable
      reads this
      ensures SortedByDate(r)
      ensures forall p {:trigger multiset(r)[p]} :: multiset(r)[p] == if p.userName == userName then multiset(rows)[p] else 0
    {
      SelectByUser(rows, userName)
    }

    /**
      Delete the row with `id`, if any, and then the file `{id}.png`, if
      any. Every other row and file stays. Without the table the statement
      raises before any file is touched, so the table must exist.
     */
    method Delete(id: nat)
      requires Valid() && hasTable
      modifies this`rows, this`images
      ensures Valid()
      ensures rows == WithoutId(old(rows), id)
      ensures images == old(images) - {id}
    {
      DeletePreservesUniqueIds(rows, id);
      rows := WithoutId(rows, id);
      images := images - {id};
    }
  }

  // ---- users ----

  /** A row of `users`: the name and SQLite's implicit rowid. */
  datatype UserRow = UserRow(rowid: nat, name: string)

  function NameIsNot(name: string): UserRow -> bool
  {
    (u: UserRow) => u.name != name
  }

  function RowidBefore(): (UserRow, UserRow) -> bool
  {
    (u: UserRow, v: UserRow) => u.rowid < v.rowid
  }

  /** `DELETE FROM users WHERE name = ?` */
  function WithoutName(rows: seq<UserRow>, name: string): (r: seq<UserRow>)
  {
    Filter(rows, NameIsNot(name))
  }

  ghost predicate RowidsIncrease(rows: seq<UserRow>)
  {
    forall i, j :: 0 <= i < j < |rows| ==> rows[i].rowid < rows[j].rowid
  }

  /** The rowid SQLite gives a new row of a table without AUTOINCREMENT: one past the largest, 1 when empty. */
  function NextRowid(rows: seq<UserRow>): nat
  {
    if rows == [] then 1 else rows[|rows| - 1].rowid + 1
  }

  /** The names of `rows`, in the same order. */
  function Names(rows: seq<UserRow>): (names: seq<string>)
    ensures |names| == |rows| && forall i :: 0 <= i < |rows| ==> names[i] == rows[i].name
  {
    if rows == [] then [] else Names(rows[..|rows| - 1]) + [rows[|rows| - 1].name]
  }

  /** Deleting a name removes all its rows, however many, and keeps the other rows in order. */
  lemma DeleteNameRemovesAll(rows: seq<UserRow>, name: string)
    ensures name !in Names(WithoutName(rows, name))
    ensures forall u :: u in rows && u.name != name ==> u in WithoutName(rows, name)
    ensures forall a, b :: WithoutName(a + b, name) == WithoutName(a, name) + WithoutName(b, name)
  {
    var r := WithoutName(rows, name);
    forall i | 0 <= i < |r| ensures Names(r)[i] != name {
      assert r[i] in r;
    }
    forall a, b ensures WithoutName(a + b, name) == WithoutName(a, name) + WithoutName(b, name) {
      FilterConcat(a, b, NameIsNot(name));
    }
  }

  lemma {:induction false} DeleteNameKeepsRowidOrder(rows: seq<UserRow>, name: string)
    requires RowidsIncrease(rows)
    ensures RowidsIncrease(WithoutName(rows, name))
  {
    assert Pairwise(rows, RowidBefore());
    FilterPairwise(rows, NameIsNot(name), RowidBefore());
    assert Pairwise(WithoutName(rows, name), RowidBefore());
  }

  /** The users table. Names may repeat: nothing makes them unique. */
  class UserManager {
    var hasTable: bool
    /** The rows in rowid order, the order `SELECT name FROM users` returns them. */
    var rows: seq<UserRow>

    ghost predicate Valid()
      reads this
    {
      (!hasTable ==> rows == []) &&
      RowidsIncrease(rows) &&
      (forall u :: u in rows ==> u.rowid >= 1)
    }

    constructor ()
      ensures Valid() && !hasTable && rows == []
    {
      hasTable := false;
      rows := [];
    }

    /** get_users: the names in storage order (the query needs the table). */
    function GetUsers(): (names: seq<string>)
      requires hasTable
      reads this
      ensures |names| == |rows|
      ensures forall i :: 0 <= i < |rows| ==> names[i] == rows[i].name
    {
      Names(rows)
    }

    /**
      Append a row for `name` even when the name is already present, and
      return its rowid, which is larger than every rowid in the table.
     */
    method Register(name: string) returns (id: nat)
      requires Valid() && hasTable
      modifies this`rows
      ensures Valid()
      ensures id == NextRowid(old(rows)) && forall i :: 0 <= i < |old(rows)| ==> old(rows)[i].rowid < id
      ensures rows == old(rows) + [UserRow(id, name)]
      ensures GetUsers() == old(GetUsers()) + [name]
    {
      id := NextRowid(rows);
      rows := rows + [UserRow(id, name)];
    }

    /**
      `CREATE TABLE IF NOT EXISTS users`, then register "guest" when
      `makeInitUser` holds and the table has no rows; otherwise the rows stay.
     */
    method Create(makeInitUser: bool)
      requires Valid()
      modifies this`hasTable, this`rows
      ensures Valid() && hasTable
      ensures rows == if makeInitUser && old(rows) == [] then [UserRow(1, "guest")] else old(rows)
    {
      hasTable := true;
      if makeInitUser && |GetUsers()| == 0 {
        var _ := Register("guest");
      }
    }

    /** Remove every row named `name` from the existing table; the other rows keep their order. */
    method Delete(name: string)
      requires Valid() && hasTable
      modifies this`rows
      ensures Valid()
      ensures rows == WithoutName(old(rows), name)
    {
      DeleteNameKeepsRowidOrder(rows, name);
      rows := WithoutName(rows, name);
    }
  }

  /**
    The end-to-end story of a product on a new database: inserting "Milk"
    for "guest" gives it the first AUTOINCREMENT id and makes it the guest's
    only listed product; deleting its id empties the list.
   */
  method MilkScenario() returns (id: nat, listed: seq<Product>, afterDelete: seq<Product>)
    ensures id == 1
    ensures listed == [Product(id, "guest", "Milk", "消費期限", "2024-01-01")]
    ensures afterDelete == []
  {
    var db := new DatabaseManager();
    db.Create();
    id := db.Insert("guest", "Milk", "消費期限", "2024-01-01");
    listed := db.FetchAllProducts("guest");
    SingleRowSelected(db.rows, "guest");
    db.Delete(id);
    afterDelete := db.FetchAllProducts("guest");
    assert |afterDelete| == 0 by {
      assert db.rows == [];
    }
  }

  /** A table of one row owned by the user is listed as itself. */
  lemma SingleRowSelected(rows: seq<Product>, userName: string)
    requires |rows| == 1 && rows[0].userName == userName
    ensures SelectByUser(rows, userName) == rows
  {
    var r := SelectByUser(rows, userName);
    assert multiset(r) == multiset(rows);
    assert |r| == 1;
    assert r[0] in multiset(rows);
  }
}
