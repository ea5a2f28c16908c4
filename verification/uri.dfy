/**
 Splitting a request URI into a file name and CGI arguments, and guessing
 a file's MIME type from its name. C strings are modelled as `string`;
 the fixed-size buffers and their overflow are not modelled.
 */
module Uri {
  import opened Jobs

  /** `sub` occurs in `s` starting at position `i`. */
  ghost predicate OccursAt(s: string, sub: string, i: int)
  {
    0 <= i && i + |sub| <= |s| && s[i..i + |sub|] == sub
  }

  /** `sub` occurs somewhere in `s`. */
  ghost predicate Occurs(s: string, sub: string)
  {
    exists i :: OccursAt(s, sub, i)
  }

  /** The first occurrence of `sub` in `s` at or after `from` (`strstr`). */
  function Find(s: string, sub: string, from: nat): (r: Option<nat>)
    ensures r.Some? ==> from <= r.value && OccursAt(s, sub, r.value)
    ensures r.Some? ==> forall j :: from <= j < r.value ==> !OccursAt(s, sub, j)
    ensures r.None? ==> forall j :: from <= j ==> !OccursAt(s, sub, j)
    decreases |s| - from
  {
    if from + |sub| > |s| then None
    else if s[from..from + |sub|] == sub then Some(from)
    else Find(s, sub, from + 1)
  }

  /** `strstr(s, sub) != NULL`. */
  function Contains(s: string, sub: string): (b: bool)
    ensures b <==> Occurs(s, sub)
  {
    Find(s, sub, 0).Some?
  }

  /** The position of the first `c` in `s` (`index`), None for NULL. */
  function IndexOf(s: string, c: char): (r: Option<nat>)
    ensures r.Some? ==> r.value < |s| && s[r.value] == c && c !in s[..r.value]
    ensures r.None? <==> c !in s
  {
    if |s| == 0 then None
    else if s[0] == c then Some(0)
    else match IndexOf(s[1..], c)
      case None => None
      case Some(i) =>
        assert s[..i + 1] == [s[0]] + s[1..][..i];
        Some(i + 1)
  }

  /** The outcome of `request_parse_uri`: the returned flag (1 for static
      content) and the two output buffers. */
  datatype ParsedUri = ParsedUri(isStatic: bool, filename: string, cgiargs: string)

  /** `request_parse_uri`. A URI without "cgi" names static content: the
      file is the URI under the current directory, with "index.html" added
      to a directory URI. Otherwise the URI is cut at its first '?': the
      part before names the file, the part after is the CGI argument
      string. The static path reads the URI's last character, so the URI
      must not be empty. */
  function ParseUri(uri: string): (r: ParsedUri)
    requires |uri| > 0
    ensures r.isStatic <==> !Occurs(uri, "cgi")
    ensures |r.filename| > 0 && r.filename[0] == '.'
    ensures r.isStatic ==> r.cgiargs == ""
    ensures r.isStatic && uri[|uri| - 1] == '/' ==> r.filename[1..] == uri + "index.html"
    ensures r.isStatic && uri[|uri| - 1] != '/' ==> r.filename[1..] == uri
    ensures !r.isStatic ==> '?' !in r.filename
    ensures !r.isStatic && '?' in uri ==> uri == r.filename[1..] + "?" + r.cgiargs
    ensures !r.isStatic && '?' !in uri ==> r.filename[1..] == uri && r.cgiargs == ""
  {
    if !Contains(uri, "cgi") then
      var name := "." + uri;
      ParsedUri(true, if uri[|uri| - 1] == '/' then name + "index.html" else name, "")
    else
      match IndexOf(uri, '?')
      case Some(q) =>
        assert uri == uri[..q] + "?" + uri[q + 1..];
        ParsedUri(false, "." + uri[..q], uri[q + 1..])
      case None =>
        ParsedUri(false, "." + uri, "")
  }

  /** `request_get_filetype`: the first of ".html", ".gif", ".jpg" found
      anywhere in the name decides the type; otherwise plain text. */
  function FileType(filename: string): (t: string)
    ensures Occurs(filename, ".html") ==> t == "text/html"
    ensures !Occurs(filename, ".html") && Occurs(filename, ".gif") ==> t == "image/gif"
    ensures !Occurs(filename, ".html") && !Occurs(filename, ".gif") && Occurs(filename, ".jpg")
      ==> t == "image/jpeg"
    ensures !Occurs(filename, ".html") && !Occurs(filename, ".gif") && !Occurs(filename, ".jpg")
      ==> t == "text/plain"
  {
    if Contains(filename, ".html") then "text/html"
    else if Contains(filename, ".gif") then "image/gif"
    else if Contains(filename, ".jpg") then "image/jpeg"
    else "text/plain"
  }

  /** A static request for a directory is served as HTML: the appended
      "index.html" always makes the file type text/html. */
  lemma DirectoryUriServesHtml(uri: string)
    requires |uri| > 0 && uri[|uri| - 1] == '/'
    requires !Occurs(uri, "cgi")
    ensures ParseUri(uri).isStatic
    ensures FileType(ParseUri(uri).filename) == "text/html"
  {
    var f := ParseUri(uri).filename;
    var k := |uri| + 6;
    assert f == "." + uri + "index.html";
    assert f[k..k + 5] == ".html";
    assert OccursAt(f, ".html", k);
  }
}
