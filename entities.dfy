/** Entities, DTOs and the outcome types shared by the whole model.
    Entity shapes follow Notepad.Repositories/Entities; DTO shapes follow
    Notepad.Common/DTOs and, for the category DTOs, the unit tests that build them. */
module Entities {

  datatype Option<+T> = None | Some(value: T)

  /** A persisted note. `imagePath` is nullable in the source. */
  datatype Note = Note(
    noteId: int,
    title: string,
    content: string,
    imagePath: Option<string>,
    categoryId: int,
    userId: string)

  /** A persisted category. The owner is a user id string, as every caller compares it. */
  datatype Category = Category(categoryId: int, name: string, userId: string)

  /** An uploaded file (IFormFile): only its name and its length in bytes matter here. */
  datatype FormFile = FormFile(fileName: string, length: int)

  /** What a validation attribute receives: null, some object that is not a file, or a file. */
  datatype Upload = Null | NotAFile | File(file: FormFile)

  datatype NoteDto = NoteDto(
    noteId: int,
    title: string,
    content: string,
    imagePath: Option<string>,
    categoryId: int,
    userId: string)

  datatype CreateNoteDto = CreateNoteDto(
    title: string,
    content: string,
    image: Option<FormFile>,
    categoryId: int)

  /** `categoryId` is `int?` in the source. */
  datatype NoteUpdateDto = NoteUpdateDto(
    noteId: int,
    title: string,
    content: string,
    categoryId: Option<int>)

  datatype NoteUpdateImageDto = NoteUpdateImageDto(image: Option<FormFile>)

  datatype CategoryDto = CategoryDto(categoryId: int, name: string, userId: string)

  datatype CreateCategoryDto = CreateCategoryDto(name: string)

  datatype UpdateCategoryDto = UpdateCategoryDto(name: string)

  /** The exceptions the core raises or lets propagate. */
  datatype Error =
    | DuplicateKey        // adding a row whose explicit key is already stored
    | RowMissing          // updating or removing a row whose key is not stored
    | NoteNotFound        // KeyNotFoundException("Note not found")
    | MissingCategoryId   // reading `.Value` of a null `int?`

  datatype Result<+T> = Ok(value: T) | Err(error: Error)

  /** string.IsNullOrEmpty */
  predicate IsNullOrEmpty(s: Option<string>) {
    s.None? || s.value == ""
  }

  function NoteKey(n: Note): int { n.noteId }

  function CategoryKey(c: Category): int { c.categoryId }
}
