/** The shared image-URL helpers: which stored image references count as
    valid, which URL an `<img>` is given, and when the fallback is drawn
    instead. A reference that is `null`, `undefined` or absent is `None`. */
module ImageUtils {
  import opened Text

  const UploadsPrefix: string := "/uploads/"
  const CloudinaryHost: string := "cloudinary.com"
  const HttpPrefix: string := "http://"
  const HttpsPrefix: string := "https://"

  /** `isValidImageUrl`: a local upload path, anything mentioning the
      Cloudinary host, or an http(s) URL. */
  function IsValidImageUrl(url: Option<string>): (valid: bool)
    ensures url.None? || url == Some("") ==> !valid
    ensures url.Some? && StartsWith(url.value, UploadsPrefix) ==> valid
    ensures url.Some? && Contains(url.value, CloudinaryHost) ==> valid
    ensures url.Some? && (StartsWith(url.value, HttpPrefix) || StartsWith(url.value, HttpsPrefix)) ==> valid
    ensures valid ==> url.Some? && (|| StartsWith(url.value, UploadsPrefix)
                                    || Contains(url.value, CloudinaryHost)
                                    || StartsWith(url.value, HttpPrefix)
                                    || StartsWith(url.value, HttpsPrefix))
  {
    match url
    case None => false
    case Some(s) =>
      if s == "" then false
      else if StartsWith(s, UploadsPrefix) then true
      else if Contains(s, CloudinaryHost) then true
      else if StartsWith(s, HttpPrefix) || StartsWith(s, HttpsPrefix) then true
      else false
  }

  /** A Cloudinary reference is valid whatever precedes or follows the host,
      with or without a scheme. */
  lemma CloudinaryValidWithAnyScheme(before: string, after: string)
    ensures IsValidImageUrl(Some(before + CloudinaryHost + after))
  {
    ContainsInfix(before, CloudinaryHost, after);
  }

  /** `getImageDisplayUrl`: the reference itself when it is an http(s) URL or
      an upload path, `null` otherwise. It never rewrites a URL. */
  function ImageDisplayUrl(url: Option<string>): (shown: Option<string>)
    ensures shown.None? || shown == url
    ensures shown.Some? <==> url.Some? && (|| StartsWith(url.value, HttpPrefix)
                                           || StartsWith(url.value, HttpsPrefix)
                                           || StartsWith(url.value, UploadsPrefix))
    ensures shown.Some? ==> IsValidImageUrl(url)
  {
    match url
    case None => None
    case Some(s) =>
      if s == "" then None
      else if StartsWith(s, HttpPrefix) || StartsWith(s, HttpsPrefix) then Some(s)
      else if StartsWith(s, UploadsPrefix) then Some(s)
      else None
  }

  /** The converse fails: a Cloudinary reference without a scheme (here, one
      starting with a host name such as `res.`) is valid, yet has no display
      URL. */
  lemma ValidWithoutDisplayUrl(before: string, after: string)
    requires |before| > 0 && before[0] != 'h' && before[0] != '/'
    ensures IsValidImageUrl(Some(before + CloudinaryHost + after))
    ensures ImageDisplayUrl(Some(before + CloudinaryHost + after)) == None
  {
    var s := before + CloudinaryHost + after;
    CloudinaryValidWithAnyScheme(before, after);
    assert s[0] == before[0];
    assert !StartsWith(s, HttpPrefix) && !StartsWith(s, HttpsPrefix) && !StartsWith(s, UploadsPrefix);
  }

  /** What `ImageWithFallback` renders. */
  datatype Rendering<F> = Fallback(content: Option<F>) | Img(src: Option<string>)

  /** `ImageWithFallback`: the fallback (or nothing) exactly when the source
      is not valid; otherwise an `<img>` whose `src` is the display URL. */
  function ImageWithFallback<F>(src: Option<string>, fallback: Option<F>): (r: Rendering<F>)
    ensures r.Fallback? <==> !IsValidImageUrl(src)
    ensures r.Fallback? ==> r.content == fallback
    ensures r.Img? ==> r.src == ImageDisplayUrl(src) && (r.src.None? || r.src == src)
  {
    if !IsValidImageUrl(src) then Fallback(fallback)
    else Img(ImageDisplayUrl(src))
  }

  /** A scheme-less Cloudinary reference passes the validity check and is
      rendered as an `<img>` with no `src`. */
  lemma ImgWithoutSource<F>(before: string, after: string, fallback: Option<F>)
    requires |before| > 0 && before[0] != 'h' && before[0] != '/'
    ensures ImageWithFallback(Some(before + CloudinaryHost + after), fallback) == Img(None)
  {
    ValidWithoutDisplayUrl(before, after);
  }
}
