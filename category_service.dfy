/** CategoryService. Its lookups by id go through `GetAsyncById(id, userId)`,
    which the repository does not define with that signature; the service is
    therefore given that lookup as a parameter, and what it does is stated
    relative to the lookup's result. Two lookups are provided: by key only,
    as the repository's `GetAsyncById(id)` and the unit-test double do, and by
    key and owner. */
module CategoryServices {
  import opened Entities
  import opened Tables
  import opened MappingProfile
  import opened CategoryData

  /** A lookup of a category by id on behalf of a user. */
  type Lookup = (seq<Category>, int, string) -> Option<Category>

  /** A lookup may only find a stored category with the requested id. */
  ghost predicate SoundLookup(lookup: Lookup) {
    forall rows, id, userId :: lookup(rows, id, userId).Some? ==>
      lookup(rows, id, userId).value in rows && lookup(rows, id, userId).value.categoryId == id
  }

  /** The repository's lookup by primary key: the owner plays no part. */
  function ByKey(rows: seq<Category>, id: int, userId: string): (r: Option<Category>)
    ensures r.Some? <==> HasKey(rows, CategoryKey, id)
    ensures r.Some? ==> r.value in rows && r.value.categoryId == id
  {
    CategoryByKey(rows, id)
  }

  /** A lookup by primary key that also requires the owner to match. */
  function ByKeyAndOwner(rows: seq<Category>, id: int, userId: string): (r: Option<Category>)
    ensures r.Some? <==> exists c :: c in rows && c.categoryId == id && c.userId == userId
    ensures r.Some? ==> r.value in rows && r.value.categoryId == id && r.value.userId == userId
  {
    First(rows, (c: Category) => c.categoryId == id && c.userId == userId)
  }

  lemma LookupsAreSound()
    ensures SoundLookup(ByKey) && SoundLookup(ByKeyAndOwner)
  {
  }

  /** The key-only lookup finds another user's category as readily as the
      caller's own: with it, only the owner check of UpdateCategoryAsync
      keeps one user from acting on another's category. */
  lemma ByKeyIgnoresOwner(rows: seq<Category>, id: int, someone: string, other: string)
    ensures ByKey(rows, id, someone) == ByKey(rows, id, other)
  {
  }

  class CategoryService {
    const repo: CategoryRepository
    const lookup: Lookup

    ghost predicate Valid()
      reads repo
    {
      repo.Valid() && SoundLookup(lookup)
    }

    constructor (repo: CategoryRepository, lookup: Lookup)
      requires repo.Valid() && SoundLookup(lookup)
      ensures Valid() && this.repo == repo && this.lookup == lookup
    {
      this.repo := repo;
      this.lookup := lookup;
    }

    /** CreateCategoryAsync: null, and nothing stored, when the caller already
        has a category of that name; otherwise one new category with the
        requested name, owned by the caller. */
    method CreateCategory(dto: CreateCategoryDto, userId: string) returns (r: Option<CategoryDto>)
      requires Valid()
      modifies repo
      ensures Valid()
      ensures r.None? <==> exists c :: c in old(repo.rows) && c.name == dto.name && c.userId == userId
      ensures r.None? ==> repo.rows == old(repo.rows)
      ensures r.Some? ==>
                |repo.rows| == |old(repo.rows)| + 1 && repo.rows[..|old(repo.rows)|] == old(repo.rows) &&
                var stored := repo.rows[|old(repo.rows)|];
                stored.name == dto.name && stored.userId == userId &&
                !HasKey(old(repo.rows), CategoryKey, stored.categoryId) &&
                r.value == CategoryToDto(stored)
      ensures UniqueNamesPerOwner(old(repo.rows)) ==> UniqueNamesPerOwner(repo.rows)
    {
      var existing := repo.GetByNameAndUserId(dto.name, userId);
      if existing.Some? {
        return None;
      }
      var category := CreateCategoryToCategory(dto);
      category := category.(userId := userId);
      var added := repo.Add(category);
      assert UniqueNamesPerOwner(old(repo.rows)) ==> UniqueNamesPerOwner(repo.rows) by {
        if UniqueNamesPerOwner(old(repo.rows)) {
          AppendKeepsNamesUnique(old(repo.rows), added.value);
        }
      }
      r := Some(CategoryToDto(added.value));
    }

    /** DeleteCategoryAsync: removes the category the lookup finds, and does
        nothing when it finds none. */
    method DeleteCategory(id: int, userId: string)
      requires Valid()
      modifies repo
      ensures Valid()
      ensures lookup(old(repo.rows), id, userId).None? ==> repo.rows == old(repo.rows)
      ensures lookup(old(repo.rows), id, userId).Some? ==>
                repo.rows == WithoutKey(old(repo.rows), CategoryKey, id) &&
                |repo.rows| == |old(repo.rows)| - 1
    {
      var category := lookup(repo.rows, id, userId);
      if category.Some? {
        var removed := repo.Delete(category.value);
      }
    }

    /** GetAllCategoriesAsync: the repository's GetAllAsync takes no user, so
        the DTOs of every category of every user. */
    function GetAllCategories(userId: string): (r: seq<CategoryDto>)
      reads repo
      ensures |r| == |repo.rows|
      ensures forall i :: 0 <= i < |r| ==> DtoToCategory(r[i]) == repo.rows[i]
    {
      Map(repo.GetAll(), CategoryToDto)
    }

    /** GetCategoriesByUserIdAsync: the DTOs of exactly the caller's
        categories, each as often as the table holds it, in the repository's order. */
    function GetCategoriesByUserId(userId: string): (r: seq<CategoryDto>)
      reads repo
      ensures forall i :: 0 <= i < |r| ==> DtoToCategory(r[i]) in repo.rows && r[i].userId == userId
      ensures forall c :: multiset(r)[CategoryToDto(c)] ==
                if c.userId == userId then multiset(repo.rows)[c] else 0
      ensures |r| == |repo.GetCategoriesByUserId(userId)| &&
              forall i :: 0 <= i < |r| ==> DtoToCategory(r[i]) == repo.GetCategoriesByUserId(userId)[i]
    {
      var categories := repo.GetCategoriesByUserId(userId);
      MapCounts(categories, CategoryToDto, DtoToCategory);
      Map(categories, CategoryToDto)
    }

    /** GetCategoryByIdAsync: null when the lookup finds nothing, else the
        DTO of a stored category with this id. */
    function GetCategoryById(id: int, userId: string): (r: Option<CategoryDto>)
      requires Valid()
      reads repo
      ensures r.None? <==> lookup(repo.rows, id, userId).None?
      ensures r.Some? ==> DtoToCategory(r.value) in repo.rows && r.value.categoryId == id
    {
      var category := lookup(repo.rows, id, userId);
      if category.None? then None else Some(CategoryToDto(category.value))
    }

    /** UpdateCategoryAsync: null, and nothing stored, when the lookup finds
        nothing or the category belongs to someone else; otherwise only the
        name changes. Name uniqueness is not checked again. */
    method UpdateCategory(id: int, dto: UpdateCategoryDto, userId: string) returns (r: Option<CategoryDto>)
      requires Valid()
      modifies repo
      ensures Valid()
      ensures var found := lookup(old(repo.rows), id, userId);
              r.None? <==> found.None? || found.value.userId != userId
      ensures r.None? ==> repo.rows == old(repo.rows)
      ensures r.Some? ==>
                var renamed := lookup(old(repo.rows), id, userId).value.(name := dto.name);
                renamed.categoryId == id && renamed.userId == userId &&
                repo.rows == ReplaceByKey(old(repo.rows), CategoryKey, renamed) &&
                r.value == CategoryToDto(renamed)
    {
      var category := lookup(repo.rows, id, userId);
      if category.None? {
        return None;
      }
      if category.value.userId != userId {
        return None;
      }
      var renamed := category.value.(name := dto.name);
      var stored := repo.Update(renamed);
      r := Some(CategoryToDto(renamed));
    }
  }
}
