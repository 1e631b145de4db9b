/** CategoryRepository over the Categories table. Its lookup by key is not
    scoped to a user; the name-and-owner lookup the category service calls is
    the one its unit tests configure. */
module CategoryData {
  import opened Entities
  import opened Tables

  predicate HasNameAndOwner(c: Category, name: string, userId: string) {
    c.name == name && c.userId == userId
  }

  /** The category stored under key `id`, whoever owns it (FindAsync by primary key). */
  function CategoryByKey(rows: seq<Category>, id: int): (r: Option<Category>)
    ensures r.Some? <==> HasKey(rows, CategoryKey, id)
    ensures r.Some? ==> r.value in rows && r.value.categoryId == id
  {
    First(rows, c => CategoryKey(c) == id)
  }

  /** The categories of `rows` owned by `userId`, in table order: as often as
      the table holds each of them, and no other category. */
  function CategoriesOf(rows: seq<Category>, userId: string): (r: seq<Category>)
    ensures forall c :: c in r <==> c in rows && c.userId == userId
    ensures forall c :: multiset(r)[c] == if c.userId == userId then multiset(rows)[c] else 0
  {
    var owned := (c: Category) => c.userId == userId;
    FilterCounts(rows, owned);
    Filter(rows, owned)
  }

  /** No owner has two categories of the same name. */
  ghost predicate UniqueNamesPerOwner(rows: seq<Category>) {
    forall i, j :: 0 <= i < |rows| && 0 <= j < |rows| && i != j && rows[i].userId == rows[j].userId ==>
      rows[i].name != rows[j].name
  }

  class CategoryRepository {
    /** The Categories table, in insertion order. */
    var rows: seq<Category>
    /** The key the store generates next. */
    var nextId: int

    ghost predicate Valid()
      reads this
    {
      nextId > 0 && UniqueKeys(rows, CategoryKey) && KeysBelow(rows, CategoryKey, nextId)
    }

    constructor ()
      ensures Valid() && rows == []
    {
      rows := [];
      nextId := 1;
    }

    /** GetAsyncById(id): FindAsync by primary key, whoever owns the row. */
    function GetById(id: int): (r: Option<Category>)
      reads this
      ensures r.Some? <==> HasKey(rows, CategoryKey, id)
      ensures r.Some? ==> r.value in rows && r.value.categoryId == id
    {
      CategoryByKey(rows, id)
    }

    /** GetAllAsync: every category of every user, in table order. */
    function GetAll(): (r: seq<Category>)
      reads this
      ensures r == rows
    {
      rows
    }

    /** GetCategoriesByUserIdAsync: exactly the categories owned by `userId`. */
    function GetCategoriesByUserId(userId: string): (r: seq<Category>)
      reads this
      ensures forall c :: c in r <==> c in rows && c.userId == userId
      ensures forall c :: multiset(r)[c] == if c.userId == userId then multiset(rows)[c] else 0
    {
      CategoriesOf(rows, userId)
    }

    /** GetCategoryByNameAndUserIdAsync: the first category whose name and
        owner both equal the arguments exactly, or null. */
    function GetByNameAndUserId(name: string, userId: string): (r: Option<Category>)
      reads this
      ensures r.Some? <==> exists c :: c in rows && c.name == name && c.userId == userId
      ensures r.Some? ==> r.value in rows && r.value.name == name && r.value.userId == userId
    {
      First(rows, c => HasNameAndOwner(c, name, userId))
    }

    /** AddAsync: a category whose CategoryId is 0 gets the next generated key;
        one with an explicit key is stored under it, unless that key is taken. */
    method Add(entity: Category) returns (r: Result<Category>)
      requires Valid()
      modifies this
      ensures Valid()
      ensures r.Ok? <==> entity.categoryId == 0 || !HasKey(old(rows), CategoryKey, entity.categoryId)
      ensures r.Ok? ==> rows == old(rows) + [r.value] &&
                        r.value == entity.(categoryId := r.value.categoryId) &&
                        !HasKey(old(rows), CategoryKey, r.value.categoryId) &&
                        (entity.categoryId != 0 ==> r.value.categoryId == entity.categoryId)
      ensures r.Err? ==> r.error == DuplicateKey && rows == old(rows)
    {
      if entity.categoryId == 0 {
        var stored := entity.(categoryId := nextId);
        rows := rows + [stored];
        nextId := nextId + 1;
        r := Ok(stored);
      } else if HasKey(rows, CategoryKey, entity.categoryId) {
        r := Err(DuplicateKey);
      } else {
        rows := rows + [entity];
        if entity.categoryId >= nextId {
          nextId := entity.categoryId + 1;
        }
        r := Ok(entity);
      }
    }

    /** UpdateAsync: the stored row with the entity's key becomes the entity. */
    method Update(entity: Category) returns (r: Result<()>)
      requires Valid()
      modifies this
      ensures Valid()
      ensures r.Ok? <==> HasKey(old(rows), CategoryKey, entity.categoryId)
      ensures r.Ok? ==> rows == ReplaceByKey(old(rows), CategoryKey, entity)
      ensures r.Err? ==> r.error == RowMissing && rows == old(rows)
    {
      if HasKey(rows, CategoryKey, entity.categoryId) {
        ReplaceByKeyUnique(rows, CategoryKey, entity);
        rows := ReplaceByKey(rows, CategoryKey, entity);
        r := Ok(());
      } else {
        r := Err(RowMissing);
      }
    }

    /** DeleteAsync: the row with the entity's key is removed. */
    method Delete(entity: Category) returns (r: Result<()>)
      requires Valid()
      modifies this
      ensures Valid()
      ensures r.Ok? <==> HasKey(old(rows), CategoryKey, entity.categoryId)
      ensures r.Ok? ==> rows == WithoutKey(old(rows), CategoryKey, entity.categoryId) &&
                        |rows| == |old(rows)| - 1
      ensures r.Err? ==> r.error == RowMissing && rows == old(rows)
    {
      if HasKey(rows, CategoryKey, entity.categoryId) {
        WithoutKeyUnique(rows, CategoryKey, entity.categoryId);
        WithoutKeyRemovesOne(rows, CategoryKey, entity.categoryId);
        rows := WithoutKey(rows, CategoryKey, entity.categoryId);
        r := Ok(());
      } else {
        r := Err(RowMissing);
      }
    }
  }

  /** Appending a category whose (name, owner) pair is not stored keeps the
      pairs unique. */
  lemma AppendKeepsNamesUnique(rows: seq<Category>, c: Category)
    requires UniqueNamesPerOwner(rows)
    requires forall d :: d in rows ==> !HasNameAndOwner(d, c.name, c.userId)
    ensures UniqueNamesPerOwner(rows + [c])
  {
    var all := rows + [c];
    forall i, j | 0 <= i < |all| && 0 <= j < |all| && i != j && all[i].userId == all[j].userId
      ensures all[i].name != all[j].name
    {
      if i == |rows| {
        assert all[j] in rows;
      } else if j == |rows| {
        assert all[i] in rows;
      }
    }
  }

  /** Renaming a category by its key can give its owner two categories of the
      same name: no uniqueness is checked on update. */
  lemma RenameCanDuplicateName()
    ensures var rows := [Category(1, "Work", "u1"), Category(2, "Home", "u1")];
            UniqueNamesPerOwner(rows) &&
            !UniqueNamesPerOwner(ReplaceByKey(rows, CategoryKey, rows[1].(name := "Work")))
  {
    var rows := [Category(1, "Work", "u1"), Category(2, "Home", "u1")];
    var renamed := ReplaceByKey(rows, CategoryKey, rows[1].(name := "Work"));
    assert renamed[0] == rows[0] && renamed[1] == Category(2, "Work", "u1");
  }

  /** The owner-scoped list follows the table order: a category appended to
      the table comes last in its owner's list, and the other lists stay as
      they were. */
  lemma CategoriesOfAppend(rows: seq<Category>, c: Category, userId: string)
    ensures CategoriesOf(rows + [c], userId) ==
            CategoriesOf(rows, userId) + (if c.userId == userId then [c] else [])
  {
    FilterAppend(rows, c, (d: Category) => d.userId == userId);
  }

  /** With unique keys, each category of the owner is listed exactly once. */
  lemma CategoriesOfListedOnce(rows: seq<Category>, userId: string, c: Category)
    requires UniqueKeys(rows, CategoryKey) && c in rows && c.userId == userId
    ensures multiset(CategoriesOf(rows, userId))[c] == 1
  {
    UniqueKeysOccurOnce(rows, CategoryKey, c);
  }
}
