/**
 * The `download` routine, reduced to what it computes: the name of the
 * saved archive, `archive_url.split('/')[-1]`.
 */
module Download {
  import opened Wrappers
  import opened Results

  /** Python's `s.split(sep)` for a one-character separator: the pieces between separators. */
  function Split(s: string, sep: char): (parts: seq<string>)
    ensures |parts| >= 1
    ensures forall i :: 0 <= i < |parts| ==> sep !in parts[i]
  {
    if s == [] then [""]
    else
      var rest := Split(s[1..], sep);
      if s[0] == sep then [""] + rest
      else [[s[0]] + rest[0]] + rest[1..]
  }

  /** Python's `sep.join(parts)`. */
  function Join(parts: seq<string>, sep: char): string
    requires |parts| >= 1
  {
    if |parts| == 1 then parts[0] else parts[0] + [sep] + Join(parts[1..], sep)
  }

  /** Joining the pieces of a split gives back the string. */
  lemma {:induction false} JoinSplit(s: string, sep: char)
    ensures Join(Split(s, sep), sep) == s
  {
    if s != [] {
      var rest := Split(s[1..], sep);
      JoinSplit(s[1..], sep);
      if s[0] == sep {
        assert ([""] + rest)[1..] == rest;
      } else {
        var parts := [[s[0]] + rest[0]] + rest[1..];
        assert parts[1..] == rest[1..];
        if |rest| > 1 {
          assert rest[0] + [sep] + Join(rest[1..], sep) == s[1..];
        }
      }
    }
  }

  /** Line 78: the file name the archive is saved under. */
  function FileName(url: string): string
  {
    var parts := Split(url, '/');
    parts[|parts| - 1]
  }

  /** The last piece of a split is what follows the last separator. */
  lemma {:induction false} LastPieceIsSuffix(s: string, sep: char)
    ensures var parts := Split(s, sep); var last := parts[|parts| - 1];
      |last| <= |s| && s[|s| - |last|..] == last
      && (sep in s ==> |last| < |s| && s[|s| - |last| - 1] == sep)
      && (sep !in s ==> last == s)
  {
    if s != [] {
      LastPieceIsSuffix(s[1..], sep);
      var rest := Split(s[1..], sep);
      var tail := rest[|rest| - 1];
      assert s[|s| - |tail|..] == s[1..][|s| - 1 - |tail|..];
      if s[0] == sep {
        assert ([""] + rest)[|rest|] == tail;
      } else if |rest| > 1 {
        // a split into several pieces means the string has a separator
        JoinSplit(s[1..], sep);
        assert Join(rest, sep)[|rest[0]|] == sep;
        assert sep in s[1..];
      } else {
        JoinSplit(s[1..], sep);
        assert [s[0]] + s[1..] == s;
      }
    }
  }

  /**
   * The file name has no '/', is a suffix of the URL, is preceded by a
   * '/' when the URL has one, and is the whole URL when it has none.
   */
  lemma FileNameSpec(url: string)
    ensures '/' !in FileName(url)
    ensures |FileName(url)| <= |url| && url[|url| - |FileName(url)|..] == FileName(url)
    ensures '/' in url ==> |FileName(url)| < |url| && url[|url| - |FileName(url)| - 1] == '/'
    ensures '/' !in url ==> FileName(url) == url
  {
    LastPieceIsSuffix(url, '/');
  }

  /**
   * Lines 68-85: when the download page was fetched, the archive (at the
   * resolved URL given here) is saved under `FileName`; the routine
   * returns None either way, so no table is ever output for it.
   */
  function DownloadRoutine(archiveUrl: Option<string>): (r: (Run<Table>, Option<string>))
    ensures r.0 == NoResult
    ensures archiveUrl.None? <==> r.1.None?
    ensures r.1.Some? ==> '/' !in r.1.value && r.1.value == FileName(archiveUrl.value)
  {
    FileNameSpec(if archiveUrl.Some? then archiveUrl.value else "");
    match archiveUrl
    case None => (NoResult, None)
    case Some(url) => (NoResult, Some(FileName(url)))
  }
}
