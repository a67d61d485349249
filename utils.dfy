/** The storage-key extraction of `src/lib/utils.ts`. */
module Utils {
  import opened Text

  /** The marker that precedes a file's key in an upload URL. */
  const Marker: string := "/f/"

  /**
   * `extractIdentifierFromUrl`: everything after the FIRST `/f/` in `url`,
   * or "" when the marker is missing or ends the URL.
   */
  function ExtractIdentifierFromUrl(url: string): (key: string)
    // the key is a suffix of the URL, three characters shorter at least
    ensures key == "" || |key| + |Marker| <= |url|
    ensures key == url[|url| - |key|..]
    // no marker at all: empty key
    ensures (forall i :: !OccursAt(url, Marker, i)) ==> key == ""
    // non-empty exactly when some marker has a character after it
    ensures key != "" <==> exists i :: OccursAt(url, Marker, i) && i + |Marker| < |url|
    // a non-empty key is what follows the first marker: url == prefix + "/f/" + key
    ensures key != "" ==>
              var p := |url| - |key| - |Marker|;
              url == url[..p] + Marker + key && OccursAt(url, Marker, p) &&
              forall i :: 0 <= i < p ==> !OccursAt(url, Marker, i)
  {
    var index := IndexOf(url, Marker);
    if index == -1 then ""
    else
      var start := index + |Marker|;
      if start >= |url| then ""
      else
        assert OccursAt(url, Marker, index);
        url[start..]
  }
}
