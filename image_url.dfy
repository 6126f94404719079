/** `getImageUrl` of src/services/tmdbApi.js: the address of a poster, backdrop
    or profile picture on the movie database's image server. */
module TmdbImages {
  import opened Optional

  /** `IMAGE_BASE_URL`. */
  const ImageBaseUrl: string := "https://image.tmdb.org/t/p"

  /** The size used when the caller passes none. */
  const DefaultSize: string := "w500"

  /** The size actually used: the given one, or the default when the argument
      is omitted. */
  function SizeOrDefault(size: Option<string>): string
  {
    match size
    case None => DefaultSize
    case Some(s) => s
  }

  /** `getImageUrl(path, size)`. A missing or empty path gives no address
      (`null`); otherwise the address is the base, a slash, the size and the
      path, which already starts with its own slash. The three facts about a
      present address (its start, its end, its length) pin it down exactly. */
  function GetImageUrl(path: Option<string>, size: Option<string>): (r: Option<string>)
    ensures r.None? <==> path.None? || path.value == ""
    ensures r.Some? ==>
      var prefix := "https://image.tmdb.org/t/p/" + SizeOrDefault(size);
      && |r.value| == |prefix| + |path.value|
      && r.value[..|prefix|] == prefix
      && r.value[|prefix|..] == path.value
  {
    if path.None? || path.value == "" then None
    else Some(ImageBaseUrl + "/" + SizeOrDefault(size) + path.value)
  }

  /** Omitting the size is the same as asking for "w500". */
  lemma DefaultSizeIsW500(path: Option<string>)
    ensures GetImageUrl(path, None) == GetImageUrl(path, Some("w500"))
  {
  }

  /** For a given size, different image paths never share an address. */
  lemma GetImageUrlInjective(p1: Option<string>, p2: Option<string>, size: Option<string>)
    requires GetImageUrl(p1, size).Some?
    requires GetImageUrl(p1, size) == GetImageUrl(p2, size)
    ensures p1 == p2
  {
    var prefix := "https://image.tmdb.org/t/p/" + SizeOrDefault(size);
    var u := GetImageUrl(p1, size).value;
    assert p1.value == u[|prefix|..] == p2.value;
  }
}
