/**
 * The content script's controller (src/youtube-filter.ts). Its module-level variables
 * become the fields of one FilterController; storage callbacks, the URL observer, the
 * timers and the answers to filter requests become method calls, one event at a time.
 * A processing pass is specified by the function Pass, which is what the lemmas below
 * are about.
 */
module ContentScript {
  import opened Wrappers
  import opened Text

  /** How many video containers are processed, and how many answers awaited, while the loading screen is up. */
  const VideosToProcessForLoading: nat := 10

  /** How many code points of the title go into a video id. */
  const TitlePrefixLength: nat := 30

  /** The two texts of the loading screen, for message toggle 0 and 1. */
  const BlockingMessage := "Blocking the junk..."
  const PreparingMessage := "Preparing the page..."

  /** The home page and the trending page, where counters and the loading phase start over. */
  predicate IsHomePath(pathname: string) {
    pathname == "/" || pathname == "/feed/trending"
  }

  // ---------------------------------------------------------------------------
  // Containers and the requests a pass issues
  // ---------------------------------------------------------------------------

  /**
   * A ytd-rich-item-renderer container as a pass sees it: whether it holds an ad slot,
   * whether it holds video content, and the text of its title element (None when no
   * title element is found).
   */
  datatype Container = Container(hasAdSlot: bool, hasVideoContent: bool, titleText: Option<string>)

  /** A filter request: the video id, the trimmed title, the preferences sent, and the container's index among the videos. */
  datatype FilterRequest = FilterRequest(videoId: string, title: string, preferences: string, index: nat)

  /** A real video: no ad slot, and video content. */
  predicate IsVideo(c: Container) {
    !c.hasAdSlot && c.hasVideoContent
  }

  /** The containers that are videos, in page order. */
  function VideoContainers(cs: seq<Container>): (r: seq<Container>)
    ensures |r| <= |cs|
    ensures forall c :: c in r <==> c in cs && IsVideo(c)
    decreases |cs|
  {
    if cs == [] then []
    else (if IsVideo(cs[0]) then [cs[0]] else []) + VideoContainers(cs[1..])
  }

  /** Filtering a page made of two parts filters each part: the order of the videos is kept. */
  lemma {:induction false} VideoContainersConcat(a: seq<Container>, b: seq<Container>)
    ensures VideoContainers(a + b) == VideoContainers(a) + VideoContainers(b)
    decreases |a|
  {
    if a == [] {
      assert a + b == b;
    } else {
      var head := if IsVideo(a[0]) then [a[0]] else [];
      assert (a + b)[0] == a[0] && (a + b)[1..] == a[1..] + b;
      VideoContainersConcat(a[1..], b);
      assert head + (VideoContainers(a[1..]) + VideoContainers(b))
        == (head + VideoContainers(a[1..])) + VideoContainers(b);
    }
  }

  /** While the loading screen is up only the first ten videos are processed, otherwise all of them. */
  function ContainersToProcess(videos: seq<Container>, loading: bool): (r: seq<Container>)
    ensures |r| <= |videos| && r == videos[..|r|]
    ensures loading ==> |r| == if |videos| < VideosToProcessForLoading then |videos| else VideosToProcessForLoading
    ensures !loading ==> r == videos
  {
    if loading && |videos| > VideosToProcessForLoading then videos[..VideosToProcessForLoading] else videos
  }

  /**
   * The title a container is processed under: its title text trimmed. A container without
   * a title element, or whose title text is empty before trimming, is skipped.
   */
  function TitleOf(c: Container): Option<string> {
    if c.titleText.None? || c.titleText.value == [] then None
    else Some(Strip(c.titleText.value, IsJsSpace))
  }

  /**
   * A container gives a title exactly when a title element with non-empty text was found.
   * The title is that text trimmed: the infix left between the leading and trailing runs of
   * whitespace, which neither starts nor ends with whitespace.
   */
  lemma TitleIsTrimmed(c: Container)
    ensures TitleOf(c).Some? <==> c.titleText.Some? && c.titleText.value != []
    ensures TitleOf(c).Some? ==>
      var text, title, i := c.titleText.value, TitleOf(c).value, StripOffset(c.titleText.value, IsJsSpace);
      && i + |title| <= |text|
      && title == text[i..i + |title|]
      && (forall k :: 0 <= k < i ==> IsJsSpace(text[k]))
      && (forall k :: i + |title| <= k < |text| ==> IsJsSpace(text[k]))
      && (title == [] || (!IsJsSpace(title[0]) && !IsJsSpace(title[|title| - 1])))
  {
    if TitleOf(c).Some? {
      StripIsInfix(c.titleText.value, IsJsSpace);
    }
  }

  /** The titles of the containers to process, position by position. */
  function TitlesOf(cs: seq<Container>): seq<Option<string>> {
    seq(|cs|, k requires 0 <= k < |cs| => TitleOf(cs[k]))
  }

  /** The id of the video at `index` among the videos: "video_", the index, "_", and at most 30 code points of the title. */
  function VideoId(index: nat, title: string): string {
    "video_" + Decimal(index) + "_" + title[..if |title| < TitlePrefixLength then |title| else TitlePrefixLength]
  }

  /** At one position, titles that share their first 30 code points get the same id. */
  lemma VideoIdSharedPrefix(index: nat, t: string, u: string)
    requires t[..if |t| < TitlePrefixLength then |t| else TitlePrefixLength]
      == u[..if |u| < TitlePrefixLength then |u| else TitlePrefixLength]
    ensures VideoId(index, t) == VideoId(index, u)
  {
  }

  /**
   * A video id determines the index and the title prefix it was made from: ids of videos
   * at different positions never collide, and at one position only titles that share
   * their first 30 code points do.
   */
  lemma VideoIdDetermines(i: nat, t: string, j: nat, u: string)
    requires VideoId(i, t) == VideoId(j, u)
    ensures i == j
    ensures t[..if |t| < TitlePrefixLength then |t| else TitlePrefixLength]
      == u[..if |u| < TitlePrefixLength then |u| else TitlePrefixLength]
  {
    var a, b := Decimal(i), Decimal(j);
    var x := t[..if |t| < TitlePrefixLength then |t| else TitlePrefixLength];
    var y := u[..if |u| < TitlePrefixLength then |u| else TitlePrefixLength];
    var id := VideoId(i, t);
    assert id == "video_" + (a + "_" + x) && id == "video_" + (b + "_" + y);
    assert a + "_" + x == id[|"video_"|..] == b + "_" + y;
    assert forall k :: 0 <= k < |a| ==> a[k] != '_';
    assert forall k :: 0 <= k < |b| ==> b[k] != '_';
    SeparatorSplits(a, x, b, y, '_');
    DecimalInjective(i, j);
  }

  /** What a pass leaves behind: the set of processed ids and the requests issued, in order. */
  datatype PassResult = PassResult(seen: set<string>, issued: seq<FilterRequest>)

  /**
   * One container of a pass, at position `index` among the videos, with its title (None
   * when it is skipped): a titled container whose id is not yet processed is marked as
   * processed and gets a request; any other container changes nothing.
   */
  function Step(before: PassResult, index: nat, title: Option<string>, preferences: string): (after: PassResult)
    ensures before.seen <= after.seen
    ensures |before.issued| <= |after.issued| <= |before.issued| + 1
    ensures after.issued[..|before.issued|] == before.issued
  {
    match title
    case None => before
    case Some(title) =>
      var id := VideoId(index, title);
      if id in before.seen then before
      else PassResult(before.seen + {id}, before.issued + [FilterRequest(id, title, preferences, index)])
  }

  /**
   * A processing pass that starts from the processed ids `seen`, over the containers to
   * process given by their titles (TitlesOf).
   */
  function Pass(seen: set<string>, titles: seq<Option<string>>, preferences: string): (p: PassResult)
    ensures seen <= p.seen
    ensures |p.issued| <= |titles|
    decreases |titles|
  {
    if titles == [] then PassResult(seen, [])
    else Step(Pass(seen, titles[..|titles| - 1], preferences), |titles| - 1, titles[|titles| - 1], preferences)
  }

  /** The ids of some requests. */
  function Ids(requests: seq<FilterRequest>): set<string> {
    set r | r in requests :: r.videoId
  }

  /** A request a pass from `seen` over `titles` may issue: for a titled container, under its id, which was not yet processed. */
  predicate IssuedFor(seen: set<string>, titles: seq<Option<string>>, preferences: string, r: FilterRequest) {
    && r.index < |titles|
    && titles[r.index] == Some(r.title)
    && r.videoId == VideoId(r.index, r.title)
    && r.videoId !in seen
    && r.preferences == preferences
  }

  /** The `j`th request of a pass is one the pass may issue. */
  lemma {:induction false} PassRequestAt(seen: set<string>, titles: seq<Option<string>>, preferences: string, j: nat)
    requires j < |Pass(seen, titles, preferences).issued|
    ensures IssuedFor(seen, titles, preferences, Pass(seen, titles, preferences).issued[j])
    decreases |titles|
  {
    var k := |titles| - 1;
    var prefix := titles[..k];
    var before := Pass(seen, prefix, preferences);
    var r := Pass(seen, titles, preferences).issued[j];
    if j < |before.issued| {
      PassRequestAt(seen, prefix, preferences, j);
      assert r == before.issued[j];
      assert titles[r.index] == prefix[r.index];
    }
  }

  /** Requests follow container order. */
  lemma {:induction false} PassOrderAt(seen: set<string>, titles: seq<Option<string>>, preferences: string, j1: nat, j2: nat)
    requires j1 < j2 < |Pass(seen, titles, preferences).issued|
    ensures Pass(seen, titles, preferences).issued[j1].index < Pass(seen, titles, preferences).issued[j2].index
    decreases |titles|
  {
    var k := |titles| - 1;
    var prefix := titles[..k];
    var before := Pass(seen, prefix, preferences);
    var p := Pass(seen, titles, preferences);
    assert p.issued[j1] == before.issued[j1];
    if j2 < |before.issued| {
      PassOrderAt(seen, prefix, preferences, j1, j2);
      assert p.issued[j2] == before.issued[j2];
    } else {
      PassRequestAt(seen, prefix, preferences, j1);
    }
  }

  /** A pass adds exactly the ids of its requests to the processed ids. */
  lemma {:induction false} PassProcessedIds(seen: set<string>, titles: seq<Option<string>>, preferences: string)
    ensures Pass(seen, titles, preferences).seen == seen + Ids(Pass(seen, titles, preferences).issued)
    decreases |titles|
  {
    if titles != [] {
      var k := |titles| - 1;
      var before := Pass(seen, titles[..k], preferences);
      PassProcessedIds(seen, titles[..k], preferences);
      var title := titles[k];
      if title.Some? && VideoId(k, title.value) !in before.seen {
        var r := FilterRequest(VideoId(k, title.value), title.value, preferences, k);
        assert Ids(before.issued + [r]) == Ids(before.issued) + {r.videoId};
      }
    }
  }

  /** No two requests of a pass share an id. */
  lemma PassIdsDistinct(seen: set<string>, titles: seq<Option<string>>, preferences: string, j1: nat, j2: nat)
    requires j1 < j2 < |Pass(seen, titles, preferences).issued|
    ensures Pass(seen, titles, preferences).issued[j1].videoId != Pass(seen, titles, preferences).issued[j2].videoId
  {
    var p := Pass(seen, titles, preferences);
    PassOrderAt(seen, titles, preferences, j1, j2);
    PassRequestAt(seen, titles, preferences, j1);
    PassRequestAt(seen, titles, preferences, j2);
    var a, b := p.issued[j1], p.issued[j2];
    if a.videoId == b.videoId {
      VideoIdDetermines(a.index, a.title, b.index, b.title);
      assert false;
    }
  }

  /**
   * What a pass issues: requests for titled containers whose ids were not processed
   * before, in container order, with pairwise different ids; afterwards the processed ids
   * are the earlier ones plus exactly those.
   */
  lemma PassIssues(seen: set<string>, titles: seq<Option<string>>, preferences: string)
    ensures var p := Pass(seen, titles, preferences);
      && p.seen == seen + Ids(p.issued)
      && (forall j :: 0 <= j < |p.issued| ==> IssuedFor(seen, titles, preferences, p.issued[j]))
      && (forall j1, j2 :: 0 <= j1 < j2 < |p.issued| ==> p.issued[j1].index < p.issued[j2].index)
      && (forall j1, j2 :: 0 <= j1 < j2 < |p.issued| ==> p.issued[j1].videoId != p.issued[j2].videoId)
  {
    var p := Pass(seen, titles, preferences);
    PassProcessedIds(seen, titles, preferences);
    forall j | 0 <= j < |p.issued|
      ensures IssuedFor(seen, titles, preferences, p.issued[j])
    {
      PassRequestAt(seen, titles, preferences, j);
    }
    forall j1, j2 | 0 <= j1 < j2 < |p.issued|
      ensures p.issued[j1].index < p.issued[j2].index && p.issued[j1].videoId != p.issued[j2].videoId
    {
      PassOrderAt(seen, titles, preferences, j1, j2);
      PassIdsDistinct(seen, titles, preferences, j1, j2);
    }
  }

  /** After a pass, the id of the titled container at `k` is processed, whether it was issued now or before. */
  lemma {:induction false} PassCoversAt(seen: set<string>, titles: seq<Option<string>>, preferences: string, k: nat)
    requires k < |titles| && titles[k].Some?
    ensures VideoId(k, titles[k].value) in Pass(seen, titles, preferences).seen
    decreases |titles|
  {
    var last := |titles| - 1;
    var prefix := titles[..last];
    if k < last {
      assert prefix[k] == titles[k];
      PassCoversAt(seen, prefix, preferences, k);
    }
  }

  /** After a pass, every titled container's id is processed. */
  lemma PassCovers(seen: set<string>, titles: seq<Option<string>>, preferences: string)
    ensures forall k :: 0 <= k < |titles| && titles[k].Some? ==>
      VideoId(k, titles[k].value) in Pass(seen, titles, preferences).seen
  {
    forall k | 0 <= k < |titles| && titles[k].Some?
      ensures VideoId(k, titles[k].value) in Pass(seen, titles, preferences).seen
    {
      PassCoversAt(seen, titles, preferences, k);
    }
  }

  /** The id of a container after the ones a pass went over is not processed by that pass. */
  lemma {:induction false} LaterIdsAreNew(seen: set<string>, prefix: seq<Option<string>>, preferences: string, k: nat, title: string)
    requires |prefix| <= k && VideoId(k, title) !in seen
    ensures VideoId(k, title) !in Pass(seen, prefix, preferences).seen
    decreases |prefix|
  {
    if prefix != [] {
      var last := |prefix| - 1;
      LaterIdsAreNew(seen, prefix[..last], preferences, k, title);
      var t := prefix[last];
      if t.Some? && VideoId(last, t.value) == VideoId(k, title) {
        VideoIdDetermines(last, t.value, k, title);
        assert false;
      }
    }
  }

  /**
   * No titled container is missed: one whose id was not processed before the pass gets a
   * request in it (ids of different containers never collide).
   */
  lemma {:induction false} PassIssuesEveryNewVideo(seen: set<string>, titles: seq<Option<string>>, preferences: string, k: nat)
    requires k < |titles| && titles[k].Some?
    requires VideoId(k, titles[k].value) !in seen
    ensures exists j :: 0 <= j < |Pass(seen, titles, preferences).issued| && Pass(seen, titles, preferences).issued[j].index == k
    decreases |titles|
  {
    var last := |titles| - 1;
    var prefix := titles[..last];
    var before := Pass(seen, prefix, preferences);
    var p := Pass(seen, titles, preferences);
    if k < last {
      assert prefix[k] == titles[k];
      PassIssuesEveryNewVideo(seen, prefix, preferences, k);
      var j :| 0 <= j < |before.issued| && before.issued[j].index == k;
      assert p.issued[j] == before.issued[j];
    } else {
      LaterIdsAreNew(seen, prefix, preferences, k, titles[k].value);
      assert p.issued[|before.issued|].index == k;
    }
  }

  /** A pass over containers whose ids are all processed already issues nothing and changes nothing. */
  lemma {:induction false} PassOverProcessed(seen: set<string>, titles: seq<Option<string>>, preferences: string)
    requires forall k :: 0 <= k < |titles| && titles[k].Some? ==> VideoId(k, titles[k].value) in seen
    ensures Pass(seen, titles, preferences) == PassResult(seen, [])
    decreases |titles|
  {
    if titles != [] {
      var k := |titles| - 1;
      var prefix := titles[..k];
      forall m | 0 <= m < |prefix| && prefix[m].Some?
        ensures VideoId(m, prefix[m].value) in seen
      {
        assert prefix[m] == titles[m];
      }
      PassOverProcessed(seen, prefix, preferences);
    }
  }

  /** A second pass over the same containers with the processed ids of the first issues nothing. */
  lemma PassIdempotent(seen: set<string>, titles: seq<Option<string>>, preferences: string)
    ensures var first := Pass(seen, titles, preferences);
      Pass(first.seen, titles, preferences) == PassResult(first.seen, [])
  {
    PassCovers(seen, titles, preferences);
    PassOverProcessed(Pass(seen, titles, preferences).seen, titles, preferences);
  }

  // ---------------------------------------------------------------------------
  // The controller
  // ---------------------------------------------------------------------------

  class FilterController {
    /** The user's description of unwanted videos; empty when none is stored. */
    var userPreferences: string
    /** The ids of the videos already sent for filtering. */
    var processedVideos: set<string>
    /** Whether the loading screen is shown. */
    var loadingScreen: bool
    var isFirstLoad: bool
    var hasReceivedFirstResponse: bool
    /** 0 shows "Blocking the junk...", 1 shows "Preparing the page...". */
    var currentMessage: int
    /** Answers (responses and errors) received while the loading screen is up. */
    var loadingVideoResponses: nat
    var currentUrl: string
    /** The blockedVideosCount value in extension storage. */
    var blockedVideosCount: nat

    /**
     * The loading screen is up only in the first-load phase before the tenth answer; the
     * counter stays below ten during that phase and never passes ten; the first-response
     * flag ends the first-load phase; the message toggle is 0 or 1.
     */
    ghost predicate Valid()
      reads this
    {
      && (currentMessage == 0 || currentMessage == 1)
      && loadingVideoResponses <= VideosToProcessForLoading
      && (isFirstLoad ==> loadingVideoResponses < VideosToProcessForLoading)
      && (loadingScreen ==> isFirstLoad && !hasReceivedFirstResponse)
      && (hasReceivedFirstResponse ==> !isFirstLoad)
    }

    /** The script starts on `href`; `storedCount` is what storage holds for the block counter. */
    constructor (href: string, storedCount: nat)
      ensures Valid()
      ensures userPreferences == "" && processedVideos == {} && !loadingScreen
      ensures isFirstLoad && !hasReceivedFirstResponse && currentMessage == 0 && loadingVideoResponses == 0
      ensures currentUrl == href && blockedVideosCount == storedCount
    {
      userPreferences := "";
      processedVideos := {};
      loadingScreen := false;
      isFirstLoad := true;
      hasReceivedFirstResponse := false;
      currentMessage := 0;
      loadingVideoResponses := 0;
      currentUrl := href;
      blockedVideosCount := storedCount;
    }

    /** The text the loading screen shows: the blocking message exactly when the toggle is 0. */
    function LoadingMessage(): (m: string)
      reads this
      ensures m == BlockingMessage <==> currentMessage == 0
      ensures m == PreparingMessage <==> currentMessage != 0
    {
      if currentMessage == 0 then BlockingMessage else PreparingMessage
    }

    /** Shows the loading screen; when one is already shown nothing changes. */
    method CreateLoadingScreen()
      requires Valid() && isFirstLoad && !hasReceivedFirstResponse
      modifies this`loadingScreen
      ensures Valid() && loadingScreen
    {
      if loadingScreen {
        return;
      }
      loadingScreen := true;
    }

    /** Takes the loading screen down; when none is shown nothing changes. */
    method RemoveLoadingScreen()
      modifies this`loadingScreen
      ensures !loadingScreen
    {
      if loadingScreen {
        loadingScreen := false;
      }
    }

    /**
     * Starts filtering: shows the loading screen in the first-load phase before the first
     * answers. The passes it schedules are ProcessVideos events.
     */
    method StartFiltering()
      requires Valid()
      modifies this`loadingScreen
      ensures Valid()
      ensures loadingScreen == (old(loadingScreen) || (isFirstLoad && !hasReceivedFirstResponse))
    {
      if isFirstLoad && !hasReceivedFirstResponse {
        CreateLoadingScreen();
      }
    }

    /**
     * The stored preferences arrive (None when nothing is stored). On the home or trending
     * page the block counter is reset; with preferences filtering starts.
     */
    method OnPreferencesLoaded(stored: Option<string>, pathname: string) returns (started: bool)
      requires Valid()
      modifies this`userPreferences, this`blockedVideosCount, this`loadingScreen
      ensures Valid()
      ensures userPreferences == if stored.Some? then stored.value else ""
      ensures blockedVideosCount == if IsHomePath(pathname) then 0 else old(blockedVideosCount)
      ensures started <==> userPreferences != ""
      ensures loadingScreen == (old(loadingScreen) || (started && isFirstLoad && !hasReceivedFirstResponse))
    {
      userPreferences := if stored.Some? then stored.value else "";
      if IsHomePath(pathname) {
        blockedVideosCount := 0;
      }
      started := userPreferences != "";
      if started {
        StartFiltering();
      }
    }

    /**
     * A storage change. `preferencesChange` is None when the change does not touch the
     * preferences, and otherwise holds the new value (None when it was removed). A
     * preference change forgets the processed videos and the answers counted, resets the
     * block counter on the home or trending page, and starts filtering when there are
     * preferences; the first-load flag and the loading screen stay as they are.
     */
    method OnStorageChanged(preferencesChange: Option<Option<string>>, pathname: string) returns (started: bool)
      requires Valid()
      modifies this
      ensures Valid()
      ensures preferencesChange.None? ==> unchanged(this) && !started
      ensures preferencesChange.Some? ==>
        var newValue := preferencesChange.value;
        && userPreferences == (if newValue.Some? then newValue.value else "")
        && processedVideos == {}
        && !hasReceivedFirstResponse
        && loadingVideoResponses == 0
        && blockedVideosCount == (if IsHomePath(pathname) then 0 else old(blockedVideosCount))
        && (started <==> userPreferences != "")
        && loadingScreen == (old(loadingScreen) || (started && isFirstLoad))
      ensures isFirstLoad == old(isFirstLoad) && currentMessage == old(currentMessage) && currentUrl == old(currentUrl)
    {
      started := false;
      if preferencesChange.None? {
        return;
      }
      var newValue := preferencesChange.value;
      userPreferences := if newValue.Some? then newValue.value else "";
      processedVideos := {};
      hasReceivedFirstResponse := false;
      loadingVideoResponses := 0;
      if IsHomePath(pathname) {
        blockedVideosCount := 0;
      }
      started := userPreferences != "";
      if started {
        StartFiltering();
      }
    }

    /**
     * The page changed (the URL observer fired with location `href`, path `pathname`).
     * Arriving at a new URL on the home or trending page restarts the first-load phase,
     * resets the block counter and starts filtering when there are preferences; the
     * processed videos are kept. Any other change only records the URL.
     */
    method OnUrlChange(href: string, pathname: string) returns (started: bool)
      requires Valid()
      modifies this
      ensures Valid()
      ensures currentUrl == href
      ensures userPreferences == old(userPreferences) && processedVideos == old(processedVideos)
      ensures currentMessage == old(currentMessage)
      ensures href != old(currentUrl) && IsHomePath(pathname) ==>
        && isFirstLoad && !hasReceivedFirstResponse && loadingVideoResponses == 0
        && blockedVideosCount == 0
        && (started <==> userPreferences != "")
        && loadingScreen == (old(loadingScreen) || started)
      ensures !(href != old(currentUrl) && IsHomePath(pathname)) ==>
        && !started
        && isFirstLoad == old(isFirstLoad) && hasReceivedFirstResponse == old(hasReceivedFirstResponse)
        && loadingVideoResponses == old(loadingVideoResponses) && blockedVideosCount == old(blockedVideosCount)
        && loadingScreen == old(loadingScreen)
    {
      started := false;
      if href == currentUrl {
        return;
      }
      currentUrl := href;
      if IsHomePath(pathname) {
        isFirstLoad := true;
        hasReceivedFirstResponse := false;
        loadingVideoResponses := 0;
        blockedVideosCount := 0;
        started := userPreferences != "";
        if started {
          StartFiltering();
        }
      }
    }

    /**
     * A processing pass over the containers on the page. Without preferences nothing
     * happens. Otherwise the videos are taken (only the first ten while the loading screen
     * is up) and each titled one whose id is new is marked as processed and gets a request.
     */
    method ProcessVideos(containers: seq<Container>) returns (issued: seq<FilterRequest>)
      requires Valid()
      modifies this`processedVideos
      ensures Valid()
      ensures userPreferences == "" ==> issued == [] && processedVideos == old(processedVideos)
      ensures userPreferences != "" ==>
        var p := Pass(old(processedVideos), TitlesOf(ContainersToProcess(VideoContainers(containers), loadingScreen)), userPreferences);
        issued == p.issued && processedVideos == p.seen
      ensures loadingScreen ==> |issued| <= VideosToProcessForLoading
    {
      issued := [];
      if userPreferences == "" {
        return;
      }
      var todo := ContainersToProcess(VideoContainers(containers), loadingScreen);
      issued := ProcessTitles(TitlesOf(todo));
    }

    /**
     * The loop of a pass over the titles of the containers to process (None for a
     * container that is skipped): in order, each titled container whose id is new is
     * marked as processed and gets a request with the preferences.
     */
    method ProcessTitles(titles: seq<Option<string>>) returns (issued: seq<FilterRequest>)
      modifies this`processedVideos
      ensures Pass(old(processedVideos), titles, userPreferences) == PassResult(processedVideos, issued)
    {
      issued := [];
      var k := 0;
      while k < |titles|
        invariant 0 <= k <= |titles|
        invariant Pass(old(processedVideos), titles[..k], userPreferences) == PassResult(processedVideos, issued)
      {
        assert titles[..k + 1][..k] == titles[..k];
        var title := titles[k];
        if title.Some? {
          var id := VideoId(k, title.value);
          if id !in processedVideos {
            processedVideos := processedVideos + {id};
            issued := issued + [FilterRequest(id, title.value, userPreferences, k)];
          }
        }
        k := k + 1;
      }
      assert titles[..k] == titles;
    }

    /**
     * An answer (a response or an error) to a filter request arrives. While the loading
     * screen is up it is counted, and the tenth one ends the first-load phase and takes
     * the screen down.
     */
    method CountAnswer()
      requires Valid()
      modifies this`loadingVideoResponses, this`hasReceivedFirstResponse, this`isFirstLoad, this`loadingScreen
      ensures Valid()
      ensures loadingVideoResponses == old(loadingVideoResponses) + (if old(loadingScreen) then 1 else 0)
      ensures var done := old(loadingScreen) && loadingVideoResponses >= VideosToProcessForLoading;
        && hasReceivedFirstResponse == (old(hasReceivedFirstResponse) || done)
        && isFirstLoad == (old(isFirstLoad) && !done)
        && loadingScreen == (old(loadingScreen) && !done)
    {
      if loadingScreen {
        loadingVideoResponses := loadingVideoResponses + 1;
        if loadingVideoResponses >= VideosToProcessForLoading {
          hasReceivedFirstResponse := true;
          isFirstLoad := false;
          RemoveLoadingScreen();
        }
      }
    }

    /**
     * The backend answered with `decision` (None when the body has none or it is not a
     * string). The answer is counted; the video is blurred, and the block counter
     * incremented, exactly when the decision is "remove".
     */
    method OnResponse(decision: Option<string>) returns (blurred: bool)
      requires Valid()
      modifies this`loadingVideoResponses, this`hasReceivedFirstResponse, this`isFirstLoad, this`loadingScreen,
        this`blockedVideosCount
      ensures Valid()
      ensures blurred <==> decision == Some("remove")
      ensures blockedVideosCount == old(blockedVideosCount) + (if blurred then 1 else 0)
      ensures loadingVideoResponses == old(loadingVideoResponses) + (if old(loadingScreen) then 1 else 0)
      ensures var done := old(loadingScreen) && loadingVideoResponses >= VideosToProcessForLoading;
        && hasReceivedFirstResponse == (old(hasReceivedFirstResponse) || done)
        && isFirstLoad == (old(isFirstLoad) && !done)
        && loadingScreen == (old(loadingScreen) && !done)
    {
      CountAnswer();
      blurred := decision == Some("remove");
      if blurred {
        blockedVideosCount := blockedVideosCount + 1;
      }
    }

    /** A filter request failed; the failure is counted like an answer and nothing is blurred. */
    method OnError()
      requires Valid()
      modifies this`loadingVideoResponses, this`hasReceivedFirstResponse, this`isFirstLoad, this`loadingScreen
      ensures Valid()
      ensures loadingVideoResponses == old(loadingVideoResponses) + (if old(loadingScreen) then 1 else 0)
      ensures var done := old(loadingScreen) && loadingVideoResponses >= VideosToProcessForLoading;
        && hasReceivedFirstResponse == (old(hasReceivedFirstResponse) || done)
        && isFirstLoad == (old(isFirstLoad) && !done)
        && loadingScreen == (old(loadingScreen) && !done)
    {
      CountAnswer();
    }

    /**
     * The two-second message timer fires. While the screen is up the toggle flips and the
     * new message is shown; once the screen is gone the timer stops and nothing changes.
     */
    method OnMessageTick() returns (shown: Option<string>)
      requires Valid()
      modifies this`currentMessage
      ensures Valid()
      ensures loadingScreen ==> currentMessage == 1 - old(currentMessage) && shown == Some(LoadingMessage())
      ensures !loadingScreen ==> currentMessage == old(currentMessage) && shown == None
    {
      if !loadingScreen {
        return None;
      }
      currentMessage := 1 - currentMessage;
      shown := Some(LoadingMessage());
    }
  }
}
