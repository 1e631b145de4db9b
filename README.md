# Notepad.API core in Dafny

This project models the business core of Notepad.API, an ASP.NET note-taking
service in which each user keeps notes (title, content, optional image,
category) and categories of their own. It covers these parts:

- **Entities and DTOs** (`entities.dfy`). Notes, categories and the request
  and response DTOs are datatypes. Nullable members are `Option`s. User ids are
  strings throughout, as the services compare them.
- **Tables** (`tables.dfy`). Each EF table is a `seq` of rows in insertion
  order, with generic filter, first-match, map, remove-by-key and
  replace-by-key operations. Lemmas state how often each row occurs in a
  filtered or mapped list, that a filter keeps table order, and what unique
  keys give.
- **Repositories** (`note_repository.dfy`, `category_repository.dfy`).
  `NoteRepository` and `CategoryRepository` are classes over such a table,
  with a key generator:
  - The owner-scoped queries are functions.
  - `AddAsync`, `UpdateAsync` and `DeleteAsync` are methods whose contracts
    state the whole new table. A key of 0 means "generate one". The store's
    failures (a duplicate explicit key, or updating or deleting a missing row)
    are `Err` results.
  - `Valid()` keeps keys unique and below the next generated key.
- **Paths** (`paths.dfy`). `Path.GetFileName` and the directory separators,
  as .NET on Windows has them: both '/' and '\\' end a path segment.
- **File manager** (`file_manager.dfy`). It is the `IFileManager` seen by
  `NoteService`. A stored name is a unique stem followed by the upload's file
  name without its directory parts. A ghost log records every `Save` and `Delete` call in order,
  so the service contracts can state exactly which file calls happen and in
  what order.
- **Services** (`note_service.dfy`, `category_service.dfy`). `NoteService`
  and `CategoryService` are classes holding their repository:
  - The `Get*` operations are functions.
  - The state-changing operations are methods whose `ensures` give the new
    table and the new file-call log in terms of the old ones.
  - A thrown `KeyNotFoundException` is `Err(NoteNotFound)`.
  - A `null` returned by the category service is `None`.
- **Mapping profile** (`mapping.dfy`). The AutoMapper profile is a set of
  field projections, one function per configured direction.
- **Validation attributes** (`validation.dfy`). `MaxFileSizeAttribute` and
  `AllowedExtensionsAttribute` are predicates over the validated value, with
  `Path.GetExtension` and `ToLowerInvariant` spelled out.

### Modelling decisions

- **The code is followed where it and the design disagree.**
  - `NoteDTO.cs` has no `ImagePath` member, but the mapping profile maps one
    and the service tests read one. `NoteDto` therefore carries `imagePath`.
  - `Category.UserId` is declared `int` but is compared with string user ids.
    It is a string here.
- **Category lookup by id.** `CategoryService` calls
  `GetAsyncById(id, userId)`, but the repository defines only
  `GetAsyncById(id)`, a lookup by primary key. The service is therefore given
  its lookup as a parameter, with one requirement: the lookup finds only a
  stored category with the requested id (`SoundLookup`). The service
  properties are stated relative to the lookup's result. There are two
  instances:
  - `ByKey` is the repository's lookup and the unit-test double.
  - `ByKeyAndOwner` also matches the owner.
- **Category lookup by name.** `GetCategoryByNameAndUserIdAsync` does not
  exist in the repository. It takes the semantics its unit-test double gives
  it (`UnitTestsBusinessLogic/CategoryServiceUnitTest.cs:48`): exact equality
  on both name and owner.
- **`GetAllCategoriesAsync(userId)`** calls a `GetAllAsync` that takes no
  user, so it returns every category of every user. The unit test
  `GetAllCategoriesAsync_ShouldreturnAllcategories` expects exactly that.
- **The in-place `NoteUpdateDTO -> Note` map** is modelled as the service's
  unit-test double configures it (`ApplyNoteUpdate`):
  - Title, content and category are overwritten.
  - A null `CategoryId` is the `InvalidOperationException` of `.Value`
    (`Err(MissingCategoryId)`).
  - The profile as declared would also copy `NoteId`; see Findings.
- **Null strings.** A string the mapper leaves at its default `null` is written
  `""` (for example the owner of a freshly mapped note, which the service then
  overwrites).
- **`UpdateNoteImageAsync` without a new image** deletes the old file but keeps
  the old path on the note, which then names a deleted file. This is what the
  code does, and the contract says so.

## Model

| member | source | states |
|---|---|---|
| Tables.Filter | Notepad.DataAccess/NoteRepository.cs:38 | a row is in the result iff it is in the table and satisfies the predicate, and the result is no longer than the table |
| Tables.FilterConcat | Notepad.DataAccess/NoteRepository.cs:38 | filtering a concatenation filters each part and keeps them in order |
| Tables.FilterAppend | Notepad.DataAccess/NoteRepository.cs:38 | a row appended to the table comes last in the filtered list iff it passes, and the rest of the list is unchanged |
| Tables.FilterCounts | Notepad.DataAccess/NoteRepository.cs:38 | each row occurs in the filtered list exactly as often as in the table if it passes, and not at all otherwise |
| Tables.MapCounts | Notepad.BusinessLogic/NoteService.cs:42 | when a map has a left inverse, the image of each element occurs in the mapped list exactly as often as the element in the list |
| Tables.First | Notepad.DataAccess/NoteRepository.cs:44 | `FirstOrDefault`: a row is found iff some row satisfies the predicate, and the row found satisfies it and is the first that does |
| Tables.WithoutKey | Notepad.DataAccess/NoteRepository.cs:29-33 | removing by key keeps exactly the rows with another key, and no row with the removed key remains |
| Tables.ReplaceByKey | Notepad.DataAccess/NoteRepository.cs:53-58 | replacing by key keeps the length, puts the entity at every position whose key matches, and leaves every other row as it was |
| Tables.FilterAllPass | Notepad.DataAccess/NoteRepository.cs:38 | a filter that every row passes keeps the whole table |
| Tables.FilterDropsOne | Notepad.DataAccess/NoteRepository.cs:29-33 | a filter that exactly one row fails drops exactly one row |
| Tables.TailUniqueKeys | Notepad.DataAccess/NoteRepository.cs:29-33 | the rows after the first of a table with unique keys have unique keys, none equal to the first row's |
| Tables.ConsUniqueKeys | Notepad.DataAccess/NoteRepository.cs:29-33 | a row whose key is not in a table with unique keys can be put in front of it, keeping the keys unique |
| Tables.UniqueKeysOccurOnce | Notepad.DataAccess/NoteRepository.cs:29-33 | in a table with unique keys each stored row occurs exactly once |
| Tables.FilterKeepsUnique | Notepad.DataAccess/NoteRepository.cs:29-33 | filtering a table with unique keys keeps the keys unique |
| Tables.WithoutKeyUnique | Notepad.DataAccess/NoteRepository.cs:29-33 | removing a row keeps the keys unique |
| Tables.WithoutKeyRemovesOne | Notepad.DataAccess/NoteRepository.cs:29-33 | removing a stored key from a table with unique keys removes exactly one row |
| Tables.ReplaceByKeyUnique | Notepad.DataAccess/NoteRepository.cs:53-58 | replacing a row keeps the keys unique |
| Tables.ReplaceByKeyStored | Notepad.DataAccess/NoteRepository.cs:53-58 | overwriting a row with the row already stored under its key leaves the table unchanged |
| NoteData.NoteRepository.constructor | Notepad.DataAccess/NoteRepository.cs:16-19 | a new repository has an empty, valid table |
| NoteData.OwnedNotes | Notepad.DataAccess/NoteRepository.cs:38 | `Where(n => n.UserId == userId)`: a note is listed iff it is stored and owned by the user, and each owned note as often as the table holds it |
| NoteData.NoteRepository.GetAll | Notepad.DataAccess/NoteRepository.cs:36-39 | the user's notes: exactly the owned notes, each as often as the table holds it, and no other note |
| NoteData.NoteRepository.GetNotesByUserId | Notepad.DataAccess/NoteRepository.cs:48-51 | the same list as `GetAll`: exactly the owned notes, each as often as the table holds it |
| NoteData.OwnedNotesAppend | Notepad.DataAccess/NoteRepository.cs:38 | the owner's list follows table order: an appended note of the owner comes last, and other owners' lists do not change |
| NoteData.OwnedNotesListedOnce | Notepad.DataAccess/NoteRepository.cs:36-39 | with unique keys, each note of the owner is listed exactly once |
| NoteData.NoteRepository.GetById | Notepad.DataAccess/NoteRepository.cs:44 | a note is returned iff one has both this id and this owner; the note returned has both |
| NoteData.NoteRepository.Add | Notepad.DataAccess/NoteRepository.cs:21-25 | the note is appended under a fresh generated key (key 0) or its own key, and every other row is unchanged; an explicit key already stored is refused and changes nothing |
| NoteData.NoteRepository.Update | Notepad.DataAccess/NoteRepository.cs:53-58 | the row with the entity's key becomes the entity and every other row stays; a missing row is refused and changes nothing |
| NoteData.NoteRepository.Delete | Notepad.DataAccess/NoteRepository.cs:29-33 | exactly the row with the entity's key is removed (one row fewer) and every other row stays; a missing row is refused and changes nothing |
| NoteData.GetByIdIsTheKeyedRow | Notepad.DataAccess/NoteRepository.cs:44 | the note found by id and owner is the only stored note with that id |
| NoteData.FindAppended | Notepad.DataAccess/NoteRepository.cs:21-25 | after a note with a fresh key is appended, the lookup by its id and owner finds exactly that note |
| CategoryData.CategoryRepository.constructor | Notepad.DataAccess/CategoryRepository.cs:16-19 | a new repository has an empty, valid table |
| CategoryData.CategoryByKey | Notepad.DataAccess/CategoryRepository.cs:41 | `FindAsync(id)`: a category is found iff one has this key, and the one found has it |
| CategoryData.CategoriesOf | Notepad.DataAccess/CategoryRepository.cs:46 | `Where(c => c.UserId == userId)`: a category is listed iff it is stored and owned by the user, and each owned category as often as the table holds it |
| CategoryData.CategoryRepository.GetById | Notepad.DataAccess/CategoryRepository.cs:39-42 | a category is returned iff one has this key, whoever owns it |
| CategoryData.CategoryRepository.GetAll | Notepad.DataAccess/CategoryRepository.cs:34-37 | the whole table, every category of every user, in table order |
| CategoryData.CategoryRepository.GetCategoriesByUserId | Notepad.DataAccess/CategoryRepository.cs:44-47 | exactly the categories owned by the user, each as often as the table holds it, and no other |
| CategoryData.CategoriesOfAppend | Notepad.DataAccess/CategoryRepository.cs:46 | the owner's list follows table order: an appended category of the owner comes last, and other owners' lists do not change |
| CategoryData.CategoriesOfListedOnce | Notepad.DataAccess/CategoryRepository.cs:44-47 | with unique keys, each category of the owner is listed exactly once |
| CategoryData.CategoryRepository.GetByNameAndUserId | UnitTestsBusinessLogic/CategoryServiceUnitTest.cs:48 | a category is returned iff one has exactly this name and this owner; the one returned has both |
| CategoryData.CategoryRepository.Add | Notepad.DataAccess/CategoryRepository.cs:21-25 | the category is appended under a fresh generated key (key 0) or its own key, and every other row is unchanged; a duplicate explicit key changes nothing |
| CategoryData.CategoryRepository.Update | Notepad.DataAccess/CategoryRepository.cs:49-53 | the row with the entity's key becomes the entity, so it has the new name, and every other row stays; a missing row changes nothing |
| CategoryData.CategoryRepository.Delete | Notepad.DataAccess/CategoryRepository.cs:27-32 | exactly the row with the entity's key is removed and every other row stays; a missing row changes nothing |
| CategoryData.AppendKeepsNamesUnique | Notepad.BusinessLogic/CategoryService.cs:31-40 | adding a category whose (name, owner) pair is not stored keeps the pairs unique |
| CategoryData.RenameCanDuplicateName | Notepad.BusinessLogic/CategoryService.cs:102-103 | a rename by key can give one owner two categories of the same name, because update checks no uniqueness |
| FileManagement.FileManager.constructor | Notepad.BusinessLogic/FileManager.cs:11-19 | images go to the `images` directory under the given base path; no calls are recorded yet |
| Paths.FileName | Notepad.BusinessLogic/FileManager.cs:22 | `Path.GetFileName`: the suffix of the path after its last separator, which holds no separator |
| Paths.FileNameAfterSeparator | Notepad.BusinessLogic/FileManager.cs:22 | a name without separators is the file name of any directory followed by '/' and that name |
| Paths.FileNameDropsDirectories | Notepad.BusinessLogic/FileManager.cs:22 | the file name of "/../../x.png" is "x.png" |
| FileManagement.Digits | Notepad.BusinessLogic/FileManager.cs:22 | the decimal digits of a number: at least one, all digits, and exactly one iff the number is below 10 |
| FileManagement.DigitsInjective | Notepad.BusinessLogic/FileManager.cs:22 | distinct numbers have distinct digits |
| FileManagement.Stem | Notepad.BusinessLogic/FileManager.cs:22 | the unique prefix of a stored name holds no separator |
| FileManagement.StoredNameHasNoSeparator | Notepad.BusinessLogic/FileManager.cs:22-23 | a directory joined by '/' to two parts without separators has no separator after the directory |
| FileManagement.StemDeterminesCount | Notepad.BusinessLogic/FileManager.cs:22 | a stored name determines the save count and the uploaded file name that produced it |
| FileManagement.SavedPathsDiffer | Notepad.BusinessLogic/FileManager.cs:22-23 | two saves return the same path only if they are the same save of the same file name |
| FileManagement.FileManager.SaveImage | Notepad.BusinessLogic/FileManager.cs:20-30 | the returned path is the base directory, '/', the stem of this save and the upload's file name without directory parts; the part after the base directory holds no separator; one more save is counted and the save is recorded |
| FileManagement.FileManager.DeleteImage | Notepad.BusinessLogic/IFileManager.cs:9 | the delete of exactly this path is recorded |
| NoteServices.NoteService.constructor | Notepad.BusinessLogic/NoteService.cs:20-26 | the service holds the given repository and file manager |
| NoteServices.NoteService.QueryNotes | Notepad.BusinessLogic/NoteService.cs:32-41 | a note is in the query iff the caller owns it, its title contains the name when a non-empty name is given, and its category is the given one when a category is given; each such note as often as the table holds it |
| NoteServices.NoteService.GetAllNotes | Notepad.BusinessLogic/NoteService.cs:28-43 | every DTO returned is a stored note of the caller that passes both filters; the DTO of each such note occurs as often as the table holds the note; the DTOs are the query's notes, position by position |
| NoteServices.NoteService.GetNotesByUserId | Notepad.BusinessLogic/NoteService.cs:45-50 | every DTO returned is a stored note of the caller; the DTO of each of the caller's notes occurs as often as the table holds the note; the DTOs are the repository's list, position by position |
| NoteServices.NoteService.GetNoteById | Notepad.BusinessLogic/NoteService.cs:52-57 | null iff no note has this id and the caller as owner (unknown id or someone else's note); otherwise the DTO of that note |
| NoteServices.NoteService.CreateNote | Notepad.BusinessLogic/NoteService.cs:59-73 | exactly one note is added, under a fresh key, owned by the caller, with the request's title, content and category; its image path is the saved path iff an image came, and then exactly one save is made; the note can be read back by its id |
| NoteServices.NoteService.UpdateNoteDetails | Notepad.BusinessLogic/NoteService.cs:75-85 | not found, and nothing changed, unless the caller owns the note; otherwise only title, content and category of that note change (key, owner and image path stay); no file calls |
| NoteServices.NoteService.DeleteNote | Notepad.BusinessLogic/NoteService.cs:87-95 | a no-op unless the caller owns the note; otherwise exactly that note is removed and the rest stay; never a file call |
| NoteServices.NoteService.UpdateNoteImage | Notepad.BusinessLogic/NoteService.cs:99-118 | not found, with no file calls and no change, unless the caller owns the note; otherwise the old file is deleted once if the note has a path, then the new image is saved and its path stored; without a new image the path stays |
| NoteServices.DeleteThenLookupFindsNothing | Notepad.BusinessLogic/NoteService.cs:87-95 | after a delete the note is no longer found, so a second delete is a no-op |
| NoteServices.NoFilterListsAllOwned | Notepad.BusinessLogic/NoteService.cs:33-40 | with a null or empty name and no category, the query is exactly the repository's list of the caller's notes |
| NoteServices.TitleFilterExample | Notepad.BusinessLogic/NoteService.cs:35 | the title filter is a substring test: "Groceries" matches "roc" and not "Roc" |
| CategoryServices.ByKey | Notepad.DataAccess/CategoryRepository.cs:39-42 | the key-only lookup finds a category iff one has this key |
| CategoryServices.ByKeyAndOwner | Notepad.BusinessLogic/CategoryService.cs:48 | the owner-scoped lookup finds a category iff one has this key and this owner |
| CategoryServices.LookupsAreSound | Notepad.BusinessLogic/CategoryService.cs:48 | both lookups find only a stored category with the requested id |
| CategoryServices.ByKeyIgnoresOwner | UnitTestsBusinessLogic/CategoryServiceUnitTest.cs:46 | the key-only lookup gives the same answer whoever asks |
| CategoryServices.CategoryService.constructor | Notepad.BusinessLogic/CategoryService.cs:21-26 | the service holds the given repository and lookup |
| CategoryServices.CategoryService.CreateCategory | Notepad.BusinessLogic/CategoryService.cs:28-43 | null, adding nothing, iff the caller already has a category of that name; otherwise exactly one category is added, under a fresh key, with the requested name and the caller as owner; (name, owner) pairs stay unique |
| CategoryServices.CategoryService.DeleteCategory | Notepad.BusinessLogic/CategoryService.cs:45-58 | a no-op when the lookup finds nothing; otherwise exactly the found category is removed and the rest stay |
| CategoryServices.CategoryService.GetAllCategories | Notepad.BusinessLogic/CategoryService.cs:60-66 | the DTOs of every stored category, in table order |
| CategoryServices.CategoryService.GetCategoriesByUserId | Notepad.BusinessLogic/CategoryService.cs:68-73 | every DTO returned is a stored category of the caller; the DTO of each of the caller's categories occurs as often as the table holds the category; the DTOs are the repository's list, position by position |
| CategoryServices.CategoryService.GetCategoryById | Notepad.BusinessLogic/CategoryService.cs:75-85 | null iff the lookup finds nothing; otherwise the DTO of a stored category with this id |
| CategoryServices.CategoryService.UpdateCategory | Notepad.BusinessLogic/CategoryService.cs:87-107 | null, changing nothing, iff the lookup finds nothing or the category has another owner; otherwise only its name changes and its DTO is returned |
| MappingProfile.NoteDtoRoundTrip | Notepad.BusinessLogic/MappingProfile.cs:12-14 | Note -> NoteDTO -> Note gives back the note, image path included |
| MappingProfile.NoteToDtoInjective | Notepad.BusinessLogic/MappingProfile.cs:12-14 | distinct notes map to distinct DTOs |
| MappingProfile.CreateNoteToNote | Notepad.BusinessLogic/MappingProfile.cs:15-18 | the mapped note has no key (0) and no image path; title, content and category are copied |
| MappingProfile.CreateNoteIgnoresImage | Notepad.BusinessLogic/MappingProfile.cs:15-18 | the create map takes nothing from the uploaded image |
| MappingProfile.ApplyNoteUpdate | UnitTestsBusinessLogic/NoteServiceUnitTest.cs:92-97 | fails iff the category is null; otherwise title, content and category are overwritten, and key, owner and image path are kept |
| MappingProfile.ApplyNoteUpdateAsWritten | Notepad.BusinessLogic/MappingProfile.cs:11 | the declared map also copies the body's NoteId onto the note, and maps a null category id to 0; owner and image path stay |
| MappingProfile.AsWrittenUpdateRekeysNote | Notepad.BusinessLogic/MappingProfile.cs:11 | an update body with the default NoteId 0 re-keys the loaded note under the declared map, and does not under the corrected one |
| MappingProfile.ApplyImageUpdateMap | Notepad.BusinessLogic/MappingProfile.cs:28-30 | the image-update map leaves the image path, the key and the owner of the note untouched |
| MappingProfile.CategoryDtoRoundTrip | Notepad.BusinessLogic/MappingProfile.cs:19 | Category -> CategoryDTO -> Category gives back the category |
| MappingProfile.CreateCategoryToCategory | Notepad.BusinessLogic/MappingProfile.cs:20-23 | key and owner are not taken from the request (0 and empty); the name is |
| MappingProfile.UpdateCategoryToCategory | Notepad.BusinessLogic/MappingProfile.cs:24-27 | key and owner are not taken from the request (0 and empty); the name is |
| MappingProfile.CategoryRequestRoundTrips | Notepad.BusinessLogic/MappingProfile.cs:20-27 | each category request DTO survives the map to a category and back |
| ValidationAttributes.ExtensionScan | Notepad.Common/DTOs/ValidationAttributes.cs:37 | the backwards scan yields "" iff the name has no extension (no '.' in the last segment, or its last '.' ends the name), and otherwise the suffix from that '.' |
| ValidationAttributes.GetExtension | Notepad.Common/DTOs/ValidationAttributes.cs:37 | `Path.GetExtension`: the suffix from the last '.' of the last path segment, or "" when that segment has no '.' or its last '.' ends the name |
| ValidationAttributes.ToLower | Notepad.Common/DTOs/ValidationAttributes.cs:37 | `ToLowerInvariant` keeps the length and lower-cases each character |
| ValidationAttributes.NonFilePasses | Notepad.Common/DTOs/ValidationAttributes.cs:18-23 | a null or non-file value passes both attributes, whatever their parameters |
| ValidationAttributes.MaxFileSizeInclusive | Notepad.Common/DTOs/ValidationAttributes.cs:20-21 | a file of exactly the bound passes and one byte more fails |
| ValidationAttributes.ToLowerIdempotent | Notepad.Common/DTOs/ValidationAttributes.cs:37 | lower-casing twice is lower-casing once |
| ValidationAttributes.LowerCharKeepsSeparators | Notepad.Common/DTOs/ValidationAttributes.cs:37 | lower-casing turns neither a letter into a '.' or separator nor the reverse |
| ValidationAttributes.ExtensionScanOfLower | Notepad.Common/DTOs/ValidationAttributes.cs:37 | the extension of the lower-cased name is the lower-cased extension |
| ValidationAttributes.AllowedExtensionsIgnoresCase | Notepad.Common/DTOs/ValidationAttributes.cs:37-38 | two names equal up to case are accepted or refused together |
| ValidationAttributes.UpperCasePngAccepted | Notepad.Common/DTOs/CreateNoteDTO.cs:19-20 | a `photo.PNG` of exactly 5 MiB passes the note-image attributes |
| ValidationAttributes.OversizedRefused | Notepad.Common/DTOs/CreateNoteDTO.cs:19 | a `.png` one byte over 5 MiB fails |
| ValidationAttributes.GifRefused | Notepad.Common/DTOs/CreateNoteDTO.cs:20 | a `.gif` fails the allow-list |
| ValidationAttributes.NoExtensionRefused | Notepad.Common/DTOs/ValidationAttributes.cs:37-39 | a name without extension has extension "" and fails the allow-list |

## Left out

- File contents and the file system: `FileManager` stores no bytes, checks no directory and has no `IsPathValid`/`GetImage`. The fresh GUID that prefixes a stored file name is the decimal save count followed by '-', unique per file manager, and `Path.Combine` is a "/" join. The file manager is registered per request scope (`Notepad.BusinessLogic/BusinessLogicServiceExtensions.cs:17`), so each request gets a new one whose count starts at 0: two requests that each upload `x.png` get the same stored path here, where the real GUIDs differ. `SavedPathsDiffer` speaks of saves through one file manager only.
- Paths: separators are '/' and '\\', as .NET on Windows treats them; on Linux .NET only '/' separates, and a '\\' would stay in the file name.
- FileManagement.FileManager.DeleteImage: only records the call and keeps the save count; `FileManager.cs` has no implementation of it, and the file system is not modelled.
- Async execution, logging, dependency injection, controllers, identity and tokens: none of them affects the tables.
- The EF and AutoMapper runtimes: `SaveChanges` commits immediately here, and the tracked entity passed to `UpdateAsync`/`DeleteAsync` is a value, so aliasing between a loaded entity and the table is not modelled.
- NoteServices.NoteService.QueryNotes: `LIKE '%name%'` is an exact substring test; the database's collation (case-insensitivity) and the `%`/`_` wildcards inside the name are not modelled.
- ValidationAttributes.ToLower: lower-cases ASCII letters only; Unicode case mapping is not modelled.
- Foreign keys (`Notepad.DataAccess/NotepadContext.cs:23-39`: note to user and note to category, both delete-restrict, and category to user): the database, not the shown code, enforces them, and the model does not. It never blocks deleting a category that notes still use. It lets `CreateNote` and `UpdateNoteDetails` store a note whose category id names no category, which the database would refuse.
- The interfaces (`IRepository`, `IService`, `INoteService`, `ICategoryService`, `INoteRepository`, `ICategoryRepository`) disagree with their implementations and are not modelled; the implementations are.
- Store failures after an image was saved are not modelled: every service path that saves an image goes on to a store write that cannot fail here (a generated key on create, a stored key on update). In the code such a failure would leave an orphan file, since nothing rolls the save back.
- NoteData.NoteRepository.Update and CategoryData.CategoryRepository.Update: EF's `DbSet.Update` on an entity with key 0 inserts it under a generated key; the model refuses it with `Err(RowMissing)` like any missing key. No service path updates an entity with key 0.
- Member names drop the `Async` suffix.

## Findings

| source | as written | input that shows it | evidently intended | confidence | as-written member | corrected member |
|---|---|---|---|---|---|---|
| Notepad.BusinessLogic/MappingProfile.cs:11 | `CreateMap<NoteUpdateDTO, Note>()` ignores no member, so the in-place map in `UpdateNoteDetailsAsync` also copies `NoteUpdateDTO.NoteId` onto the loaded note | note 1 of user1, update body `{NoteId = 0, Title = "Updated Note", Content = "Updated Content", CategoryId = 1}` (the id travels in the route, not the body): the loaded note is re-keyed to 0 | only title, content and category are overwritten, as the service's unit tests configure the map (`UnitTestsBusinessLogic/NoteServiceUnitTest.cs:92-97`) | medium, not executed | MappingProfile.AsWrittenUpdateRekeysNote | MappingProfile.ApplyNoteUpdate |
