/** The result of PHP's `parse_url`, as far as the localization code looks into it. */
module PhpUrls {
  import opened Wrappers

  /** The components `parse_url` may return; an absent component is `None`. */
  datatype ParsedUrl = ParsedUrl(
    scheme: Option<string>,
    host: Option<string>,
    path: Option<string>,
    query: Option<string>,
    fragment: Option<string>)
  {
    /** `$parsedUrl['path'] = p`. */
    function WithPath(p: string): ParsedUrl {
      this.(path := Some(p))
    }
  }

  /** `parse_url($url)`: `None` stands for the `false` PHP returns on a malformed URL. */
  type UrlParser = string -> Option<ParsedUrl>

  /** Writing a path into the result of a failed `parse_url` turns `false` into a path-only array. */
  function PathOnly(p: string): ParsedUrl {
    ParsedUrl(None, None, Some(p), None, None)
  }
}
