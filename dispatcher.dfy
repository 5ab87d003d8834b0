/**
 * `main`: run the routine the mode names and hand its rows to the output
 * step only when the routine returned something.
 */
module Dispatcher {
  import opened Wrappers
  import opened Results
  import WhatsNew
  import LatestVersions
  import Download
  import Pep

  /** The modes of MODE_TO_FUNCTION; the argument parser admits no other. */
  datatype Mode = WhatsNewMode | LatestVersionsMode | DownloadMode | PepMode

  /**
   * What each routine gets to see, already extracted from the pages:
   * None where the seed page could not be fetched.
   */
  datatype Site = Site(
    whatsNew: Option<seq<WhatsNew.TocItem>>,
    sidebar: Option<seq<LatestVersions.ListTag>>,
    archiveUrl: Option<string>,
    pepIndex: Option<seq<Pep.IndexRow>>)

  /** Whether the seed page of the mode's routine was fetched. */
  predicate SeedFetched(mode: Mode, site: Site)
  {
    match mode
    case WhatsNewMode => site.whatsNew.Some?
    case LatestVersionsMode => site.sidebar.Some?
    case DownloadMode => site.archiveUrl.Some?
    case PepMode => site.pepIndex.Some?
  }

  /** What the routine of `mode` returns or raises. */
  function ModeResult(mode: Mode, site: Site, expected: Pep.Expectations): Run<Table>
  {
    match mode
    case WhatsNewMode => WhatsNew.WhatsNewResult(site.whatsNew)
    case LatestVersionsMode => LatestVersions.LatestVersionsResult(site.sidebar)
    case DownloadMode => Download.DownloadRoutine(site.archiveUrl).0
    case PepMode => Pep.PepResult(site.pepIndex, expected)
  }

  /**
   * Lines 143-146: `shown` is what `control_output` receives, if it is
   * called at all; `raised` is the exception that ends the run instead.
   */
  method Dispatch(mode: Mode, site: Site, expected: Pep.Expectations)
    returns (shown: Option<Table>, raised: Option<Error>)
    ensures shown.Some? <==> ModeResult(mode, site, expected).Produced?
    ensures shown.Some? ==> shown.value == ModeResult(mode, site, expected).value
    ensures raised.Some? <==> ModeResult(mode, site, expected).Raised?
    ensures raised.Some? ==> raised.value == ModeResult(mode, site, expected).error
  {
    var results: Run<Table>;
    match mode {
      case WhatsNewMode =>
        results := WhatsNew.WhatsNewRoutine(site.whatsNew);
      case LatestVersionsMode =>
        results := LatestVersions.LatestVersionsRoutine(site.sidebar);
      case DownloadMode =>
        var (run, _) := Download.DownloadRoutine(site.archiveUrl);
        results := run;
      case PepMode =>
        var log;
        results, log := Pep.PepRoutine(site.pepIndex, expected);
    }
    shown, raised := None, None;
    match results {
      case Raised(e) => raised := Some(e);
      case NoResult =>
      case Produced(t) => shown := Some(t);
    }
  }

  /**
   * A routine whose seed page could not be fetched returns None, so the
   * output step is never reached; the download routine never reaches it.
   */
  lemma NoOutputWithoutSeed(mode: Mode, site: Site, expected: Pep.Expectations)
    ensures !SeedFetched(mode, site) ==> ModeResult(mode, site, expected) == NoResult
    ensures mode == DownloadMode ==> ModeResult(mode, site, expected) == NoResult
  {
  }

  /** Every table handed to the output step is rectangular: each row has the header's arity. */
  lemma OutputIsRectangular(mode: Mode, site: Site, expected: Pep.Expectations)
    requires ModeResult(mode, site, expected).Produced?
    ensures Rectangular(ModeResult(mode, site, expected).value)
  {
    match mode {
      case WhatsNewMode => WhatsNew.WhatsNewShape(site.whatsNew);
      case LatestVersionsMode => LatestVersions.LatestVersionsShape(site.sidebar);
      case PepMode =>
        var rows := site.pepIndex.value;
        Pep.TallyTableSpec(Pep.Observed(rows));
    }
  }
}
