/** `uploadedImageURL`: the address of an uploaded image under the
    configured assets base, with an optional size query. */
module ImageUrl {
  import opened JsRuntime

  /** The path between the assets base and the blob key. */
  const ImagesPath: string := "/static/images/"

  /** The query that introduces the requested size. */
  const SizeQuery: string := "?size="

  /** `uploadedImageURL(bkey, size)` with `Fider.settings.assetsURL` passed
      in. A missing or empty key gives `undefined` (`None`); a missing or
      zero size gives the URL without a query. */
  function UploadedImageURL(assetsURL: string, bkey: Option<string>, size: Option<int>): (r: Option<string>)
    ensures r.None? <==> bkey.None? || bkey.value == ""
    ensures r.Some? ==> |r.value| >= |assetsURL + ImagesPath| + |bkey.value|
                        && r.value[..|assetsURL + ImagesPath|] == assetsURL + ImagesPath
                        && r.value[|assetsURL + ImagesPath|..][..|bkey.value|] == bkey.value
    ensures r.Some? && (size.None? || size.value == 0) ==> r.value == assetsURL + ImagesPath + bkey.value
  {
    if bkey.Some? && bkey.value != "" then
      if size.Some? && size.value != 0 then
        Some(assetsURL + ImagesPath + bkey.value + SizeQuery + IntToDecimal(size.value))
      else
        Some(assetsURL + ImagesPath + bkey.value)
    else
      None
  }

  /** The position of the first occurrence of `c` in `s`, if any. */
  function IndexOf(s: string, c: char): (r: Option<nat>)
    ensures r.None? <==> c !in s
    ensures r.Some? ==> r.value < |s| && s[r.value] == c && c !in s[..r.value]
  {
    if s == [] then None
    else if s[0] == c then Some(0)
    else match IndexOf(s[1..], c)
      case None => None
      case Some(i) => assert s[..i + 1] == [s[0]] + s[1..][..i]; Some(i + 1)
  }

  /** Reads a URL under `assetsURL` back into its key and its size, if it
      has the shape `UploadedImageURL` produces. */
  function ParseImageURL(assetsURL: string, url: string): Option<(string, Option<int>)> {
    var prefix := assetsURL + ImagesPath;
    if |url| < |prefix| || url[..|prefix|] != prefix then None
    else ParseKeyAndSize(url[|prefix|..])
  }

  /** Splits what follows the images path into the key (up to the first
      '?') and the size of a `?size=` query. */
  function ParseKeyAndSize(rest: string): Option<(string, Option<int>)> {
    match IndexOf(rest, '?')
    case None => Some((rest, None))
    case Some(q) =>
      var query := rest[q..];
      if |query| < |SizeQuery| || query[..|SizeQuery|] != SizeQuery then None
      else match ParseInt(query[|SizeQuery|..])
        case None => None
        case Some(n) => Some((rest[..q], Some(n)))
  }

  /** A key without '?' followed by the size query reads back as that key
      and that size. */
  lemma KeyAndSizeRoundTrip(key: string, size: int)
    requires '?' !in key
    ensures ParseKeyAndSize(key + SizeQuery + IntToDecimal(size)) == Some((key, Some(size)))
  {
    var digits := IntToDecimal(size);
    var rest := key + SizeQuery + digits;
    assert IndexOf(rest, '?') == Some(|key|) by {
      assert rest[..|key|] == key && rest[|key|] == '?';
    }
    var query := rest[|key|..];
    assert query == SizeQuery + digits;
    assert query[..|SizeQuery|] == SizeQuery && query[|SizeQuery|..] == digits;
    assert rest[..|key|] == key;
    IntToDecimalRoundTrip(size);
  }

  /** The URL carries the key and the size it was built from: a key without
      '?' and a non-zero size come back unchanged, and a missing or zero
      size comes back as no size. */
  lemma ImageURLRoundTrip(assetsURL: string, key: string, size: Option<int>)
    requires key != "" && '?' !in key
    ensures UploadedImageURL(assetsURL, Some(key), size).Some?
    ensures ParseImageURL(assetsURL, UploadedImageURL(assetsURL, Some(key), size).value)
            == Some((key, if size.Some? && size.value != 0 then size else None))
  {
    var prefix := assetsURL + ImagesPath;
    var rest := if size.Some? && size.value != 0 then key + SizeQuery + IntToDecimal(size.value) else key;
    var url := prefix + rest;
    assert UploadedImageURL(assetsURL, Some(key), size) == Some(url) by {
      if size.Some? && size.value != 0 {
        assert assetsURL + ImagesPath + key + SizeQuery + IntToDecimal(size.value) == url;
      }
    }
    assert url[..|prefix|] == prefix && url[|prefix|..] == rest;
    if size.Some? && size.value != 0 {
      KeyAndSizeRoundTrip(key, size.value);
    }
  }
}
