/**
 * The `latest_versions` routine: pick the version list out of the
 * documentation sidebar and turn each of its anchors into a row
 * (link, version, status).
 */
module LatestVersions {
  import opened Wrappers
  import opened Results
  import opened VersionPattern

  /** An anchor as extracted from the page: its href and its text. */
  datatype Anchor = Anchor(href: string, text: string)

  /** A `ul` element of the sidebar: its whole text and the anchors inside it. */
  datatype ListTag = ListTag(text: string, anchors: seq<Anchor>)

  const Marker: string := "All versions"

  const Header: Row := [Text("Ссылка на документацию"), Text("Версия"), Text("Статус")]

  /** `sub` occurs in `s` at position `i`. */
  ghost predicate OccursAt(s: string, sub: string, i: nat)
  {
    i + |sub| <= |s| && s[i..i + |sub|] == sub
  }

  /** Python's `sub in s` on strings, scanning the positions from `i` on. */
  function ContainsFrom(s: string, sub: string, i: nat): (b: bool)
    requires i <= |s|
    ensures b <==> exists j: nat :: i <= j && OccursAt(s, sub, j)
    decreases |s| - i
  {
    if i + |sub| <= |s| && s[i..i + |sub|] == sub then
      assert OccursAt(s, sub, i);
      true
    else if i == |s| then
      false
    else
      ContainsFrom(s, sub, i + 1)
  }

  function Contains(s: string, sub: string): (b: bool)
    ensures b <==> exists j: nat :: OccursAt(s, sub, j)
  {
    ContainsFrom(s, sub, 0)
  }

  /**
   * Lines 48-54 as written: the `else` belongs to the `if`, so only the
   * first list is looked at. It is taken if its text contains the marker;
   * otherwise 'Not found' is raised at once. With no lists at all,
   * `a_tags` is never bound and reading it at line 57 raises.
   */
  function VersionList(lists: seq<ListTag>): Result<seq<Anchor>, Error>
  {
    if |lists| == 0 then Failure(UnboundLocal("a_tags"))
    else if Contains(lists[0].text, Marker) then Success(lists[0].anchors)
    else Failure(MarkerNotFound)
  }

  /** The scan of lines 49-54, with its `break` and its `raise`. */
  method SelectVersionList(lists: seq<ListTag>) returns (r: Result<seq<Anchor>, Error>)
    ensures r == VersionList(lists)
    ensures r.Success? <==> |lists| > 0 && exists j: nat :: OccursAt(lists[0].text, Marker, j)
  {
    var aTags: Option<seq<Anchor>> := None;
    for i := 0 to |lists|
      invariant aTags.None?
      invariant i <= 1
    {
      if Contains(lists[i].text, Marker) {
        aTags := Some(lists[i].anchors);
        break;
      } else {
        return Failure(MarkerNotFound);
      }
    }
    match aTags {
      case None => r := Failure(UnboundLocal("a_tags"));
      case Some(a) => r := Success(a);
    }
  }

  /** Line 64: the row for one anchor. */
  function VersionRow(a: Anchor): (row: Row)
    ensures |row| == 3 && row[0] == Text(a.href)
  {
    match ParseAnchorText(a.text)
    case Matched(v, st) => [Text(a.href), Text(v), Text(st)]
    case Unmatched(raw) => [Text(a.href), Text(raw), Text("")]
  }

  function VersionRows(anchors: seq<Anchor>): (rows: Table)
  {
    seq(|anchors|, i requires 0 <= i < |anchors| => VersionRow(anchors[i]))
  }

  /** What `latest_versions` returns for the sidebar it sees (None when the page fetch failed). */
  function LatestVersionsResult(sidebar: Option<seq<ListTag>>): Run<Table>
  {
    match sidebar
    case None => NoResult
    case Some(lists) =>
      match VersionList(lists)
      case Failure(e) => Raised(e)
      case Success(anchors) => Produced([Header] + VersionRows(anchors))
  }

  /** Lines 42-65: the routine with its two loops. */
  method LatestVersionsRoutine(sidebar: Option<seq<ListTag>>) returns (r: Run<Table>)
    ensures r == LatestVersionsResult(sidebar)
  {
    if sidebar.None? {
      return NoResult;
    }
    var found := SelectVersionList(sidebar.value);
    if found.Failure? {
      return Raised(found.error);
    }
    var anchors := found.value;
    var results: Table := [Header];
    for k := 0 to |anchors|
      invariant results == [Header] + VersionRows(anchors[..k])
    {
      var row := VersionRow(anchors[k]);
      assert VersionRows(anchors[..k + 1]) == VersionRows(anchors[..k]) + [row];
      results := results + [row];
    }
    assert anchors[..|anchors|] == anchors;
    r := Produced(results);
  }

  /**
   * Every produced table is the header followed by exactly one row per
   * anchor, in anchor order, each of arity three.
   */
  lemma LatestVersionsShape(sidebar: Option<seq<ListTag>>)
    requires LatestVersionsResult(sidebar).Produced?
    ensures var t := LatestVersionsResult(sidebar).value;
      var anchors := sidebar.value[0].anchors;
      && Rectangular(t) && |t[0]| == 3 && t[0] == Header
      && |t| == |anchors| + 1
      && forall i :: 0 <= i < |anchors| ==> t[i + 1] == VersionRow(anchors[i])
  {
  }

  /** A row's version and status are the groups of the pattern, or the raw text and ''. */
  lemma VersionRowContents(a: Anchor)
    ensures var row := VersionRow(a);
      match Search(a.text)
      case Some(m) => row == [Text(a.href), Text(m.version), Text(m.status)]
                      && MatchesAt(a.text, m.start, m.version, m.status)
      case None => row == [Text(a.href), Text(a.text), Text("")]
                   && forall q: nat, v, st :: !MatchesAt(a.text, q, v, st)
  {
    if Search(a.text).Some? {
      SearchFindsLeftmostGreedy(a.text);
    } else {
      SearchNoneMeansNoMatch(a.text);
    }
  }

  /** Only the first list decides: lists after it never change the outcome. */
  lemma OnlyFirstListExamined(lists: seq<ListTag>, others: seq<ListTag>)
    requires |lists| > 0
    ensures VersionList(lists[..1] + others) == VersionList(lists)
  {
  }
}
