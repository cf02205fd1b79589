/**
 * Normalisation of Google Books volume records and the shaping of the
 * catalog service's results (backend/services/googleBooksService.js). The
 * HTTP exchange itself is an input: a response body, or `None` when the
 * request failed.
 */
module Catalog {
  import opened Js

  datatype ImageLinks = ImageLinks(thumbnail: Option<string>, smallThumbnail: Option<string>)

  /** The `volumeInfo` object of a raw volume; every member may be missing. */
  datatype VolumeInfo = VolumeInfo(
    title: Option<string>,
    authors: Option<seq<string>>,
    publisher: Option<string>,
    publishedDate: Option<string>,
    description: Option<string>,
    pageCount: Option<int>,
    categories: Option<seq<string>>,
    ratingsCount: Option<int>,
    language: Option<string>,
    imageLinks: Option<ImageLinks>,
    previewLink: Option<string>,
    infoLink: Option<string>)

  /** A volume as the catalog returns it. */
  datatype RawBook = RawBook(id: Option<string>, volumeInfo: Option<VolumeInfo>)

  /** A volume after `formatBook`: every field filled in, `None` standing for null. */
  datatype Book = Book(
    id: Option<string>,
    title: string,
    authors: seq<string>,
    publisher: string,
    publishedDate: Option<string>,
    description: string,
    pageCount: int,
    categories: seq<string>,
    ratingsCount: int,
    language: string,
    thumbnail: Option<string>,
    previewLink: Option<string>,
    infoLink: Option<string>)

  const NoTitle := "Tanpa Judul"
  const NoPublisher := "Tidak diketahui"
  const NoDescription := "Tidak ada deskripsi"
  const NoLanguage := "unknown"

  /** `xs || []` for an array member: any array present is kept, even an empty one. */
  function ListOr<T>(o: Option<seq<T>>): (r: seq<T>)
    ensures o.Some? ==> r == o.value
    ensures o.None? ==> r == []
  {
    if o.Some? then o.value else []
  }

  /** `n || 0` for a numeric member. */
  function CountOr(o: Option<int>): (r: int)
    ensures o.Some? ==> r == o.value
    ensures o.None? ==> r == 0
  {
    if o.Some? then o.value else 0
  }

  /** `imageLinks?.thumbnail || imageLinks?.smallThumbnail || null`. */
  function Thumbnail(links: Option<ImageLinks>): (r: Option<string>)
    ensures links.None? ==> r.None?
    ensures links.Some? && Present(links.value.thumbnail) ==> r == links.value.thumbnail
    ensures links.Some? && !Present(links.value.thumbnail) ==> r == OrNull(links.value.smallThumbnail)
  {
    match links
    case None => None
    case Some(l) => if Present(l.thumbnail) then l.thumbnail else OrNull(l.smallThumbnail)
  }

  /** A text field after normalisation: never the empty string. */
  predicate FilledText(s: string) {
    s != []
  }

  /** A nullable text field after normalisation: null or non-empty. */
  predicate FilledOrNull(o: Option<string>) {
    o.None? || o.value != []
  }

  /** The shape every `formatBook` result has. */
  predicate Normalised(b: Book) {
    && FilledText(b.title) && FilledText(b.publisher) && FilledText(b.description) && FilledText(b.language)
    && FilledOrNull(b.publishedDate) && FilledOrNull(b.thumbnail)
    && FilledOrNull(b.previewLink) && FilledOrNull(b.infoLink)
  }

  /** The fully defaulted record `formatBook` gives for a volume without `volumeInfo`. */
  function Defaults(id: Option<string>): Book {
    Book(id, NoTitle, [], NoPublisher, None, NoDescription, 0, [], 0, NoLanguage, None, None, None)
  }

  /** `formatBook`. */
  function FormatBook(raw: RawBook): (b: Book)
    ensures b.id == raw.id
    ensures Normalised(b)
    ensures raw.volumeInfo.None? ==> b == Defaults(raw.id)
    ensures raw.volumeInfo.Some? ==>
            var v := raw.volumeInfo.value;
            && (Present(v.title) ==> b.title == v.title.value)
            && (!Present(v.title) ==> b.title == NoTitle)
            && b.authors == ListOr(v.authors) && b.categories == ListOr(v.categories)
            && b.thumbnail == Thumbnail(v.imageLinks)
            && b.publisher == OrElse(v.publisher, NoPublisher) && b.description == OrElse(v.description, NoDescription)
            && b.language == OrElse(v.language, NoLanguage)
            && b.pageCount == CountOr(v.pageCount) && b.ratingsCount == CountOr(v.ratingsCount)
            && b.publishedDate == OrNull(v.publishedDate)
            && b.previewLink == OrNull(v.previewLink) && b.infoLink == OrNull(v.infoLink)
  {
    var v := if raw.volumeInfo.Some? then raw.volumeInfo.value
             else VolumeInfo(None, None, None, None, None, None, None, None, None, None, None, None);
    Book(
      raw.id,
      OrElse(v.title, NoTitle),
      ListOr(v.authors),
      OrElse(v.publisher, NoPublisher),
      OrNull(v.publishedDate),
      OrElse(v.description, NoDescription),
      CountOr(v.pageCount),
      ListOr(v.categories),
      CountOr(v.ratingsCount),
      OrElse(v.language, NoLanguage),
      Thumbnail(v.imageLinks),
      OrNull(v.previewLink),
      OrNull(v.infoLink))
  }

  /** A raw volume that carries every field of `b` explicitly. */
  function ToRaw(b: Book): RawBook {
    RawBook(b.id, Some(VolumeInfo(
      Some(b.title), Some(b.authors), Some(b.publisher), b.publishedDate, Some(b.description),
      Some(b.pageCount), Some(b.categories), Some(b.ratingsCount), Some(b.language),
      Some(ImageLinks(b.thumbnail, None)), b.previewLink, b.infoLink)))
  }

  /** Normalisation loses nothing from a record that is already normalised. */
  lemma FormatRoundTrip(b: Book)
    requires Normalised(b)
    ensures FormatBook(ToRaw(b)) == b
  {
  }

  /** Formatting is idempotent through `ToRaw`. */
  lemma FormatIdempotent(raw: RawBook)
    ensures FormatBook(ToRaw(FormatBook(raw))) == FormatBook(raw)
  {
    FormatRoundTrip(FormatBook(raw));
  }

  /** `formatBooks`: `formatBook` applied element by element. */
  function FormatBooks(raws: seq<RawBook>): (bs: seq<Book>)
    ensures |bs| == |raws|
    ensures forall i :: 0 <= i < |raws| ==> bs[i] == FormatBook(raws[i])
  {
    if raws == [] then [] else [FormatBook(raws[0])] + FormatBooks(raws[1..])
  }

  /** Formatting a concatenation formats each part in place. */
  lemma {:induction false} FormatBooksAppend(a: seq<RawBook>, b: seq<RawBook>)
    ensures FormatBooks(a + b) == FormatBooks(a) + FormatBooks(b)
  {
    if a == [] {
      assert a + b == b;
    } else {
      assert (a + b)[1..] == a[1..] + b;
      FormatBooksAppend(a[1..], b);
    }
  }

  // ---------------------------------------------------------------------
  // Result shaping
  // ---------------------------------------------------------------------

  /** The body of a volumes-list response. */
  datatype ListResponse = ListResponse(totalItems: Option<int>, items: Option<seq<RawBook>>)

  datatype Listing = Listing(totalItems: int, items: seq<Book>)

  /** The service's reply: a value or the failure message. */
  datatype Fetched<T> = Fetched(value: T) | FetchFailed(message: string)

  const SearchFailedMessage := "Gagal mengambil data dari Google Books API"
  const CategoryFailedMessage := "Gagal mengambil data kategori"
  const BookMissingMessage := "Buku tidak ditemukan"

  /** `totalItems || 0` and `formatBooks(items || [])`. */
  function ShapeListing(body: ListResponse): (r: Listing)
    ensures body.totalItems.None? ==> r.totalItems == 0
    ensures body.totalItems.Some? ==> r.totalItems == body.totalItems.value
    ensures body.items.None? ==> r.items == []
    ensures body.items.Some? ==> r.items == FormatBooks(body.items.value)
  {
    Listing(CountOr(body.totalItems), FormatBooks(ListOr(body.items)))
  }

  /** `searchBooks`: the response, or `None` when the request failed. */
  function SearchBooks(response: Option<ListResponse>): (r: Fetched<Listing>)
    ensures r.FetchFailed? <==> response.None?
    ensures r.FetchFailed? ==> r.message == SearchFailedMessage
    ensures response.Some? ==> r.value == ShapeListing(response.value)
  {
    match response
    case None => FetchFailed(SearchFailedMessage)
    case Some(body) => Fetched(ShapeListing(body))
  }

  /** `getBooksByCategory`. */
  function BooksByCategory(response: Option<ListResponse>): (r: Fetched<Listing>)
    ensures r.FetchFailed? <==> response.None?
    ensures r.FetchFailed? ==> r.message == CategoryFailedMessage
    ensures response.Some? ==> r.value == ShapeListing(response.value)
  {
    match response
    case None => FetchFailed(CategoryFailedMessage)
    case Some(body) => Fetched(ShapeListing(body))
  }

  /** `getBookById`. */
  function GetBookById(response: Option<RawBook>): (r: Fetched<Book>)
    ensures r.FetchFailed? <==> response.None?
    ensures r.FetchFailed? ==> r.message == BookMissingMessage
    ensures response.Some? ==> r.value == FormatBook(response.value) && r.value.id == response.value.id
  {
    match response
    case None => FetchFailed(BookMissingMessage)
    case Some(raw) => Fetched(FormatBook(raw))
  }
}
