/**
 * Resolution of `data:` URLs (RFC 2397, section 3:
 * `data:[<mediatype>][;base64],<data>`). The model covers the split of the
 * URL into header and data and the choice between the base64 branch and the
 * URL-decoding branch with its character encoding. Base64 decoding itself
 * and `URLDecoder.decode` are foreign calls: the first is represented by the
 * still-encoded data it would read, the second is a parameter that yields
 * None when the decoder rejects the data or the encoding.
 */
module DataUri {
  import opened Wrappers

  /** The `Source` handed back to the XSLT processor. */
  datatype Source =
    | Base64Source(encoded: string)   // a stream that base64-decodes `encoded`
    | TextSource(text: string)        // a reader over the URL-decoded text

  datatype ResolveError = StringIndexOutOfBounds   // `substring(0, -1)` when the URL has no comma

  /** The URL decoder: text and encoding name to the decoded text, None on failure. */
  type UrlDecoder = (string, string) -> Option<string>

  predicate StartsWith(s: string, prefix: string)
  {
    |prefix| <= |s| && s[..|prefix|] == prefix
  }

  predicate EndsWith(s: string, suffix: string)
  {
    |suffix| <= |s| && s[|s| - |suffix|..] == suffix
  }

  /** `p` occurs in `s` at index `i`. */
  predicate OccursAt(s: string, p: string, i: int)
  {
    0 <= i && i + |p| <= |s| && s[i..i + |p|] == p
  }

  /** `String.indexOf(char)`: the first index of `c`, or -1. */
  function IndexOf(s: string, c: char): (r: int)
    ensures r == -1 <==> c !in s
    ensures r != -1 ==> 0 <= r < |s| && s[r] == c && c !in s[..r]
  {
    if |s| == 0 then -1
    else if s[0] == c then 0
    else
      var k := IndexOf(s[1..], c);
      assert s[1..] == s[1..][..]; // keeps the slice in view of the contract of the recursive call
      if k == -1 then -1
      else
        assert s[..k + 1] == [s[0]] + s[1..][..k];
        k + 1
  }

  /** `String.indexOf(String)` searching from `from`: the first index >= from where `p` occurs, or -1. */
  function IndexOfFrom(s: string, p: string, from: nat): (r: int)
    ensures r == -1 <==> forall i :: from <= i ==> !OccursAt(s, p, i)
    ensures r != -1 ==> from <= r && OccursAt(s, p, r) && forall i :: from <= i < r ==> !OccursAt(s, p, i)
    decreases |s| + 1 - from
  {
    if from + |p| > |s| then -1
    else if s[from..from + |p|] == p then
      assert OccursAt(s, p, from);
      from
    else IndexOfFrom(s, p, from + 1)
  }

  function IndexOfString(s: string, p: string): int
  {
    IndexOfFrom(s, p, 0)
  }

  /** Splits at the first comma into header and data; a URL without a comma raises. */
  function SplitHeader(href: string): (r: Result<(string, string), ResolveError>)
    ensures r.Fail? <==> ',' !in href
    ensures r.Ok? ==> r.value.0 + [','] + r.value.1 == href && ',' !in r.value.0
  {
    var commaPos := IndexOf(href, ',');
    if commaPos < 0 then Fail(StringIndexOutOfBounds)
    else
      assert href == href[..commaPos] + [','] + href[commaPos + 1..];
      Ok((href[..commaPos], href[commaPos + 1..]))
  }

  /** The character encoding named by the header: what follows `;charset=` when that occurs past index 0, else UTF-8. */
  function Encoding(header: string): (enc: string)
    ensures IndexOfString(header, ";charset=") > 0 ==> header == header[..IndexOfString(header, ";charset=")] + ";charset=" + enc
    ensures IndexOfString(header, ";charset=") <= 0 ==> enc == "UTF-8"
  {
    var charsetPos := IndexOfString(header, ";charset=");
    if charsetPos > 0 then
      assert header == header[..charsetPos] + header[charsetPos..charsetPos + 9] + header[charsetPos + 9..];
      header[charsetPos + 9..]
    else "UTF-8"
  }

  /** `parseDataURI`: a base64 source when the header ends in `;base64`, else the URL-decoded text, or None. */
  function ParseDataUri(href: string, urlDecode: UrlDecoder): (r: Result<Option<Source>, ResolveError>)
    ensures r.Fail? <==> ',' !in href
    ensures r.Ok? ==>
      var header := SplitHeader(href).value.0;
      var data := SplitHeader(href).value.1;
      if EndsWith(header, ";base64") then r.value == Some(Base64Source(data))
      else r.value == (match urlDecode(data, Encoding(header)) case None => None case Some(t) => Some(TextSource(t)))
  {
    match SplitHeader(href)
    case Fail(e) => Fail(e)
    case Ok((header, data)) =>
      if EndsWith(header, ";base64") then Ok(Some(Base64Source(data)))
      else
        match urlDecode(data, Encoding(header))
        case None => Ok(None)
        case Some(text) => Ok(Some(TextSource(text)))
  }

  /** `resolve`: None for anything that is not a `data:` URL. */
  function Resolve(href: string, base: string, urlDecode: UrlDecoder): (r: Result<Option<Source>, ResolveError>)
    ensures !StartsWith(href, "data:") ==> r == Ok(None)
    ensures StartsWith(href, "data:") ==> (r.Fail? <==> ',' !in href)
  {
    if StartsWith(href, "data:") then ParseDataUri(href, urlDecode) else Ok(None)
  }

  /**
   * In a URL that starts with `data:` the header cannot start with
   * `;charset=`, so any `;charset=` in the header selects the encoding: the
   * text after its first occurrence.
   */
  lemma {:induction false} DataHeaderHonoursCharset(href: string, p: nat)
    requires StartsWith(href, "data:") && ',' in href
    requires OccursAt(SplitHeader(href).value.0, ";charset=", p)
    ensures var header := SplitHeader(href).value.0;
            var q := IndexOfString(header, ";charset=");
            0 < q <= p && header == header[..q] + ";charset=" + Encoding(header)
  {
    var header := SplitHeader(href).value.0;
    assert href == header + [','] + SplitHeader(href).value.1;
    assert |header| >= 5;
    assert header[0] == href[0] == 'd';
    assert !OccursAt(header, ";charset=", 0);
  }
}
