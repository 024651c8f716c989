// DataConverter: the conversions between the app's models (user, book,
// chapter) and the rows the database stores for them.

module DataConverter {
  import opened Wrappers
  import opened UserInfoManager

  /** A chapter as the reader shows it; the volume fields and the global order are optional extras. */
  datatype Chapter = Chapter(
    id: string,
    title: string,
    pageCount: int,
    volumeTitle: Option<string>,
    volumeOrder: Option<int>,
    subOrder: Option<int>,
    chapterOrder: int)

  datatype Book = Book(
    id: string,
    title: string,
    author: string,
    description: string,
    coverImageRes: Option<int>,
    lastUpdateTime: int,
    chapters: seq<Chapter>)

  datatype BookEntity = BookEntity(
    id: string,
    title: string,
    author: string,
    description: string,
    coverImageRes: Option<int>,
    lastUpdateTime: int)

  datatype ChapterEntity = ChapterEntity(id: string, bookId: string, title: string, pageCount: int)

  datatype UserEntity = UserEntity(
    id: int,
    username: string,
    avatarType: string,
    avatarIconName: Option<string>,
    avatarDrawableRes: Option<int>)

  /** The chapter built from just an id, a title and a page count: every other field at its default. */
  function PlainChapter(id: string, title: string, pageCount: int): Chapter {
    Chapter(id, title, pageCount, None, None, None, 0)
  }

  /** `userInfoToEntity`: an icon keeps its name and no drawable, an image its drawable and no name. */
  function UserInfoToEntity(u: UserInfo, id: int): (r: UserEntity)
    ensures r.id == id && r.username == u.username
    ensures u.avatar.Icon? ==> r.avatarType == TypeIcon && r.avatarIconName == Some(u.avatar.iconName) && r.avatarDrawableRes.None?
    ensures u.avatar.Image? ==> r.avatarType == TypeImage && r.avatarIconName.None? && r.avatarDrawableRes == Some(u.avatar.drawableRes)
  {
    match u.avatar
    case Icon(name) => UserEntity(id, u.username, TypeIcon, Some(name), None)
    case Image(res) => UserEntity(id, u.username, TypeImage, None, Some(res))
  }

  /** `entityToUserInfo`: a missing icon name gives the person icon, a missing drawable the first bundled image. */
  function EntityToUserInfo(e: UserEntity): UserInfo {
    var avatar :=
      if e.avatarType == TypeIcon then Icon(e.avatarIconName.GetOr(DefaultIconName))
      else if e.avatarType == TypeImage then Image(e.avatarDrawableRes.GetOr(DefaultDrawable))
      else Icon(DefaultIconName);
    UserInfo(e.username, avatar)
  }

  /** A user stored and loaded again is the same user, for both kinds of avatar. */
  lemma UserRoundTrip(u: UserInfo, id: int)
    ensures EntityToUserInfo(UserInfoToEntity(u, id)) == u
  {
  }

  /** The fallbacks when a row is incomplete or its avatar type unknown. */
  lemma UserFallbacks(e: UserEntity)
    ensures e.avatarType != TypeIcon && e.avatarType != TypeImage ==> EntityToUserInfo(e).avatar == Icon(DefaultIconName)
    ensures e.avatarType == TypeIcon && e.avatarIconName.None? ==> EntityToUserInfo(e).avatar == Icon(DefaultIconName)
    ensures e.avatarType == TypeImage && e.avatarDrawableRes.None? ==> EntityToUserInfo(e).avatar == Image(DefaultDrawable)
  {
  }

  /** A row is rebuilt exactly from the user it loads as when it has the shape `userInfoToEntity` writes. */
  lemma UserEntityRoundTrip(e: UserEntity)
    ensures UserInfoToEntity(EntityToUserInfo(e), e.id) == e <==>
      (e.avatarType == TypeIcon && e.avatarIconName.Some? && e.avatarDrawableRes.None?)
      || (e.avatarType == TypeImage && e.avatarIconName.None? && e.avatarDrawableRes.Some?)
  {
  }

  function BookToEntity(b: Book): BookEntity {
    BookEntity(b.id, b.title, b.author, b.description, b.coverImageRes, b.lastUpdateTime)
  }

  function EntityToBook(e: BookEntity, chapters: seq<Chapter>): Book {
    Book(e.id, e.title, e.author, e.description, e.coverImageRes, e.lastUpdateTime, chapters)
  }

  /** A book stored and loaded without chapters is the same book with its chapter list emptied. */
  lemma BookRoundTrip(b: Book)
    ensures EntityToBook(BookToEntity(b), []) == b.(chapters := [])
  {
  }

  /** A row loaded as a book, with any chapters, is stored as the same row. */
  lemma BookEntityRoundTrip(e: BookEntity, chapters: seq<Chapter>)
    ensures BookToEntity(EntityToBook(e, chapters)) == e
  {
  }

  /** `chapterToEntity`: the row belongs to the given book. */
  function ChapterToEntity(c: Chapter, bookId: string): (r: ChapterEntity)
    ensures r.bookId == bookId
  {
    ChapterEntity(c.id, bookId, c.title, c.pageCount)
  }

  function EntityToChapter(e: ChapterEntity): Chapter {
    PlainChapter(e.id, e.title, e.pageCount)
  }

  /** A chapter stored and loaded keeps its id, title and page count and loses its volume fields and order. */
  lemma ChapterRoundTrip(c: Chapter, bookId: string)
    ensures EntityToChapter(ChapterToEntity(c, bookId)) == PlainChapter(c.id, c.title, c.pageCount)
    ensures EntityToChapter(ChapterToEntity(c, bookId)) == c <==> c == PlainChapter(c.id, c.title, c.pageCount)
  {
  }

  /** A chapter row loaded and stored under its own book is the same row. */
  lemma ChapterEntityRoundTrip(e: ChapterEntity)
    ensures ChapterToEntity(EntityToChapter(e), e.bookId) == e
  {
  }

  function BooksToEntities(books: seq<Book>): (r: seq<BookEntity>)
    ensures |r| == |books| && forall i :: 0 <= i < |r| ==> r[i] == BookToEntity(books[i])
  {
    if books == [] then [] else [BookToEntity(books[0])] + BooksToEntities(books[1..])
  }

  function EntitiesToBooks(entities: seq<BookEntity>): (r: seq<Book>)
    ensures |r| == |entities| && forall i :: 0 <= i < |r| ==> r[i] == EntityToBook(entities[i], [])
  {
    if entities == [] then [] else [EntityToBook(entities[0], [])] + EntitiesToBooks(entities[1..])
  }

  function ChaptersToEntities(chapters: seq<Chapter>, bookId: string): (r: seq<ChapterEntity>)
    ensures |r| == |chapters| && forall i :: 0 <= i < |r| ==> r[i] == ChapterToEntity(chapters[i], bookId)
  {
    if chapters == [] then [] else [ChapterToEntity(chapters[0], bookId)] + ChaptersToEntities(chapters[1..], bookId)
  }

  function EntitiesToChapters(entities: seq<ChapterEntity>): (r: seq<Chapter>)
    ensures |r| == |entities| && forall i :: 0 <= i < |r| ==> r[i] == EntityToChapter(entities[i])
  {
    if entities == [] then [] else [EntityToChapter(entities[0])] + EntitiesToChapters(entities[1..])
  }

  /** The batch round trips: book rows survive a load and store unchanged, books lose their chapters. */
  lemma BatchRoundTrips(books: seq<Book>, entities: seq<BookEntity>)
    ensures BooksToEntities(EntitiesToBooks(entities)) == entities
    ensures var back := EntitiesToBooks(BooksToEntities(books));
      |back| == |books| && forall i :: 0 <= i < |back| ==> back[i] == books[i].(chapters := [])
  {
  }

  /** `bookWithChaptersToEntities`: the book's row and one row per chapter, in order, each stamped with the book's id. */
  function BookWithChaptersToEntities(b: Book): (r: (BookEntity, seq<ChapterEntity>))
    ensures r.0 == BookToEntity(b)
    ensures |r.1| == |b.chapters|
    ensures forall i :: 0 <= i < |r.1| ==>
      r.1[i].bookId == b.id && r.1[i].id == b.chapters[i].id
      && r.1[i].title == b.chapters[i].title && r.1[i].pageCount == b.chapters[i].pageCount
  {
    (BookToEntity(b), ChaptersToEntities(b.chapters, b.id))
  }

  /** Loading the rows of a book gives the book back exactly when its chapters carry no volume fields or order. */
  lemma {:induction false} BookWithChaptersRoundTrip(b: Book)
    ensures var r := BookWithChaptersToEntities(b);
      EntityToBook(r.0, EntitiesToChapters(r.1)) == b <==>
        forall i :: 0 <= i < |b.chapters| ==> b.chapters[i] == PlainChapter(b.chapters[i].id, b.chapters[i].title, b.chapters[i].pageCount)
  {
    var r := BookWithChaptersToEntities(b);
    var cs := EntitiesToChapters(r.1);
    assert forall i :: 0 <= i < |cs| ==> cs[i] == PlainChapter(b.chapters[i].id, b.chapters[i].title, b.chapters[i].pageCount);
    if cs == b.chapters {
      assert forall i :: 0 <= i < |b.chapters| ==> b.chapters[i] == cs[i];
    }
  }
}
