/**
 * The image-reference rewriter of utils/image-url-replacer.ts: the url map of
 * replaceImageUrlsInMarkdown, the global `replace` passes, the candidate url
 * and fallback of replaceImageUrlsInMarkdownAdvanced, and extractImageUrl.
 */
module ImageUrlReplacer {
  import opened MarkdownPatterns

  /** The two fields of an attached file that the rewriter reads; "" stands for a missing or empty value. */
  datatype VisionFile = VisionFile(belongsTo: string, url: string)

  /** The label of the image line appended when nothing was rewritten (line 110). */
  const AttachmentLabel := "图片附件"

  /** The upload-host marker extractImageUrl looks for (line 128). */
  const UploadMarker := "https://upload.dify.ai/files/tools/"

  function FallbackImage(url: string): string {
    "\n" + ImageText(AttachmentLabel, url)
  }

  // ---------------------------------------------------------------------------
  // The url map of replaceImageUrlsInMarkdown (lines 36-41)
  // ---------------------------------------------------------------------------

  /** `file` makes the `forEach` set `key`. */
  predicate Registers(file: VisionFile, key: string) {
    key != "" && file.belongsTo == key && file.url != ""
  }

  /** The map the `forEach` leaves behind after visiting `files` in order. */
  function UrlMapOf(files: seq<VisionFile>): map<string, string>
  {
    if files == [] then map[]
    else
      var earlier := UrlMapOf(files[..|files| - 1]);
      var file := files[|files| - 1];
      if file.belongsTo != "" && file.url != "" then earlier[file.belongsTo := file.url] else earlier
  }

  /**
   * A key is in the map iff some file registers it, and then it maps to the
   * url of the last file that does: later files overwrite earlier ones.
   */
  lemma {:induction false} UrlMapOfSpec(files: seq<VisionFile>, key: string)
    ensures key in UrlMapOf(files) <==> exists i :: 0 <= i < |files| && Registers(files[i], key)
    ensures key in UrlMapOf(files) ==>
              exists i :: 0 <= i < |files| && Registers(files[i], key) && UrlMapOf(files)[key] == files[i].url
                          && forall j :: i < j < |files| ==> !Registers(files[j], key)
  {
    if files != [] {
      var init := files[..|files| - 1];
      var last := files[|files| - 1];
      UrlMapOfSpec(init, key);
      assert forall i :: 0 <= i < |init| ==> init[i] == files[i];
      if Registers(last, key) {
        assert UrlMapOf(files)[key] == last.url;
      } else if key in UrlMapOf(files) {
        assert key in UrlMapOf(init) && UrlMapOf(files)[key] == UrlMapOf(init)[key];
        var i :| 0 <= i < |init| && Registers(init[i], key) && UrlMapOf(init)[key] == init[i].url
                 && forall j :: i < j < |init| ==> !Registers(init[j], key);
        assert forall j :: i < j < |files| ==> !Registers(files[j], key);
      } else {
        assert key !in UrlMapOf(init);
      }
    }
  }

  /** The `forEach` of lines 37-41, filling the map one file at a time. */
  method BuildUrlMap(files: seq<VisionFile>) returns (urls: map<string, string>)
    ensures urls == UrlMapOf(files)
  {
    urls := map[];
    for i := 0 to |files|
      invariant urls == UrlMapOf(files[..i])
    {
      assert files[..i + 1][..i] == files[..i];
      var file := files[i];
      if file.belongsTo != "" && file.url != "" {
        urls := urls[file.belongsTo := file.url];
      }
    }
    assert files[..|files|] == files;
  }

  // ---------------------------------------------------------------------------
  // One global `replace` pass with a callback
  // ---------------------------------------------------------------------------

  /** The callbacks of lines 47-53 (ById) and of lines 85-92 and 98-105 (ToCandidate). */
  datatype Policy = ById(urls: map<string, string>) | ToCandidate(url: string)

  /** What the callback returns for a match `m` whose text is `original`, and whether it rewrote it. */
  function Replacement(policy: Policy, original: string, m: LinkMatch): (string, bool)
  {
    match policy
    case ById(urls) =>
      if m.id in urls && urls[m.id] != "" then (ImageText(m.alt, urls[m.id]), true) else (original, false)
    case ToCandidate(url) =>
      if url != "" then (ImageText(m.alt, url), true) else (original, false)
  }

  /**
   * The callback of replaceImageUrlsInMarkdown rewrites a match iff some file
   * registers its id, and then to the url of the last file that does;
   * otherwise it returns the match unchanged.
   */
  lemma ByIdRewritesRegisteredIds(files: seq<VisionFile>, original: string, m: LinkMatch)
    ensures var (text, hit) := Replacement(ById(UrlMapOf(files)), original, m);
            (hit <==> exists i :: 0 <= i < |files| && Registers(files[i], m.id))
            && (!hit ==> text == original)
            && (hit ==> exists i :: 0 <= i < |files| && Registers(files[i], m.id)
                                    && text == ImageText(m.alt, files[i].url)
                                    && forall j :: i < j < |files| ==> !Registers(files[j], m.id))
  {
    UrlMapOfSpec(files, m.id);
  }

  /** The text a pass produces and how many matches its callback rewrote. */
  datatype Rewrite = Rewrite(text: string, rewrites: nat)

  /**
   * `s[i..].replace(pattern, callback)` for a global pattern: the engine tries
   * each position from the left; a match is replaced by what the callback
   * returns and scanning resumes after it; elsewhere one character is copied.
   */
  function ReplaceAll(s: string, i: nat, scan: Matcher, policy: Policy): Rewrite
    requires i <= |s|
    decreases |s| - i
  {
    if i == |s| then Rewrite("", 0)
    else match scan(s, i)
      case None =>
        var rest := ReplaceAll(s, i + 1, scan, policy);
        Rewrite([s[i]] + rest.text, rest.rewrites)
      case Some(m) =>
        var rest := ReplaceAll(s, m.end, scan, policy);
        var (replaced, hit) := Replacement(policy, s[i..m.end], m);
        Rewrite(replaced + rest.text, rest.rewrites + if hit then 1 else 0)
  }

  /** The number of leftmost, non-overlapping matches of `scan` in `s[i..]`. */
  function MatchCount(s: string, i: nat, scan: Matcher): nat
    requires i <= |s|
    decreases |s| - i
  {
    if i == |s| then 0
    else match scan(s, i)
      case None => MatchCount(s, i + 1, scan)
      case Some(m) => 1 + MatchCount(s, m.end, scan)
  }

  /** A callback that returns every match unchanged. */
  predicate Inert(policy: Policy) {
    match policy
    case ToCandidate(url) => url == ""
    case ById(urls) => forall k :: k in urls ==> urls[k] == ""
  }

  /** Where no match starts, a pass copies the text and rewrites nothing. */
  lemma ReplaceAllNoMatch(s: string, i: nat, scan: Matcher, policy: Policy)
    requires i <= |s|
    requires forall j :: i <= j < |s| ==> scan(s, j).None?
    ensures ReplaceAll(s, i, scan, policy) == Rewrite(s[i..], 0)
    ensures MatchCount(s, i, scan) == 0
  {
    ReplaceAllSkip(s, i, |s|, scan, policy);
    MatchCountSkip(s, i, |s|, scan);
  }

  /** With a callback that keeps every match, a pass copies the text and rewrites nothing. */
  lemma {:induction false} ReplaceAllInert(s: string, i: nat, scan: Matcher, policy: Policy)
    requires i <= |s| && Inert(policy)
    ensures ReplaceAll(s, i, scan, policy) == Rewrite(s[i..], 0)
    decreases |s| - i
  {
    if i < |s| {
      match scan(s, i)
      case None =>
        ReplaceAllInert(s, i + 1, scan, policy);
        assert s[i..] == [s[i]] + s[i + 1..];
      case Some(m) =>
        ReplaceAllInert(s, m.end, scan, policy);
        assert s[i..] == s[i..m.end] + s[m.end..];
    }
  }

  /** A pass copies a stretch in which no match starts and carries on after it. */
  lemma {:induction false} ReplaceAllSkip(s: string, i: nat, p: nat, scan: Matcher, policy: Policy)
    requires i <= p <= |s|
    requires forall j :: i <= j < p ==> scan(s, j).None?
    ensures ReplaceAll(s, i, scan, policy).text == s[i..p] + ReplaceAll(s, p, scan, policy).text
    ensures ReplaceAll(s, i, scan, policy).rewrites == ReplaceAll(s, p, scan, policy).rewrites
    decreases p - i
  {
    if i < p {
      var here := ReplaceAll(s, i, scan, policy);
      var next := ReplaceAll(s, i + 1, scan, policy);
      var tail := ReplaceAll(s, p, scan, policy).text;
      assert scan(s, i).None?;
      assert here == Rewrite([s[i]] + next.text, next.rewrites);
      ReplaceAllSkip(s, i + 1, p, scan, policy);
      assert next.text == s[i + 1..p] + tail;
      assert [s[i]] + (s[i + 1..p] + tail) == ([s[i]] + s[i + 1..p]) + tail;
      assert [s[i]] + s[i + 1..p] == s[i..p];
    }
  }

  /** Matches are counted from the first position at which one starts. */
  lemma {:induction false} MatchCountSkip(s: string, i: nat, p: nat, scan: Matcher)
    requires i <= p <= |s|
    requires forall j :: i <= j < p ==> scan(s, j).None?
    ensures MatchCount(s, i, scan) == MatchCount(s, p, scan)
    decreases p - i
  {
    if i < p {
      assert scan(s, i).None?;
      assert MatchCount(s, i, scan) == MatchCount(s, i + 1, scan);
      MatchCountSkip(s, i + 1, p, scan);
    }
  }

  /**
   * Leftmost semantics: if the first match at or after `i` starts at `p`,
   * the pass copies `s[i..p]`, puts the callback's value in place of the
   * match and carries on after it.
   */
  lemma ReplaceAllLeftmost(s: string, i: nat, p: nat, scan: Matcher, policy: Policy)
    requires i <= p <= |s|
    requires forall j :: i <= j < p ==> scan(s, j).None?
    requires scan(s, p).Some?
    ensures var m := scan(s, p).value;
            var rest := ReplaceAll(s, m.end, scan, policy);
            var replaced := Replacement(policy, s[p..m.end], m);
            ReplaceAll(s, i, scan, policy).text == s[i..p] + replaced.0 + rest.text
            && ReplaceAll(s, i, scan, policy).rewrites == rest.rewrites + (if replaced.1 then 1 else 0)
            && MatchCount(s, i, scan) == 1 + MatchCount(s, m.end, scan)
  {
    ReplaceAllSkip(s, i, p, scan, policy);
    MatchCountSkip(s, i, p, scan);
    var m := scan(s, p).value;
    var rest := ReplaceAll(s, m.end, scan, policy);
    var replaced := Replacement(policy, s[p..m.end], m);
    assert ReplaceAll(s, p, scan, policy) == Rewrite(replaced.0 + rest.text, rest.rewrites + if replaced.1 then 1 else 0);
    assert s[i..p] + (replaced.0 + rest.text) == s[i..p] + replaced.0 + rest.text;
  }

  /** With a non-empty candidate every match is rewritten: the pass is exhaustive. */
  lemma {:induction false} ReplaceAllRewritesEveryMatch(s: string, i: nat, scan: Matcher, url: string)
    requires i <= |s| && url != ""
    ensures ReplaceAll(s, i, scan, ToCandidate(url)).rewrites == MatchCount(s, i, scan)
    decreases |s| - i
  {
    if i < |s| {
      match scan(s, i)
      case None => ReplaceAllRewritesEveryMatch(s, i + 1, scan, url);
      case Some(m) => ReplaceAllRewritesEveryMatch(s, m.end, scan, url);
    }
  }

  // ---------------------------------------------------------------------------
  // replaceImageUrlsInMarkdown (lines 27-55)
  // ---------------------------------------------------------------------------

  /**
   * Rewrites every `![alt](/files/tools/ID[.ext])` whose ID the files map to
   * a url.  The early return for empty content or no files changes nothing a
   * pass with the empty map would not.
   */
  method ReplaceImageUrlsInMarkdown(content: string, files: seq<VisionFile>) returns (result: string)
    ensures content == "" || files == [] ==> result == content
    ensures result == ReplaceAll(content, 0, LinkMatcher(ImageRefPattern), ById(UrlMapOf(files))).text
  {
    if content == "" || |files| == 0 {
      if files == [] {
        ReplaceAllInert(content, 0, LinkMatcher(ImageRefPattern), ById(UrlMapOf(files)));
      }
      return content;
    }
    var urls := BuildUrlMap(files);
    result := ReplaceAll(content, 0, LinkMatcher(ImageRefPattern), ById(urls)).text;
  }

  /**
   * The id captured from `id.ext` is `id` when `id` holds no `.`: for
   * `/files/tools/abc.png` the key looked up is `abc`, never `abc.png`.
   */
  lemma LazyIdDropsExtension(id: string, ext: string)
    requires |id| >= 1 && NoChar(id, '.') && |ext| >= 1
    ensures LazyId(id + "." + ext) == id
  {
    var body := id + "." + ext;
    assert ExtSuffixAt(body, |id|);
    assert forall j :: 0 <= j < |id| ==> body[j] == id[j];
    assert body[..|id|] == id;
  }

  /** A reference `![alt](/files/tools/id.ext)` alone is rewritten iff the map holds a url for `id`. */
  lemma ReplaceByIdLooksUpBareId(alt: string, id: string, ext: string, urls: map<string, string>)
    requires |id| >= 1 && NoChar(id, '.') && |ext| >= 1
    requires LinkParts(alt, id + "." + ext)
    ensures var s := LinkText(ImageRefPattern, alt, id + "." + ext);
            ReplaceAll(s, 0, LinkMatcher(ImageRefPattern), ById(urls)).text
              == if id in urls && urls[id] != "" then ImageText(alt, urls[id]) else s
  {
    var s := LinkText(ImageRefPattern, alt, id + "." + ext);
    LinkAtComplete(s, 0, ImageRefPattern, alt, id + "." + ext);
    LazyIdDropsExtension(id, ext);
    ReplaceAllLeftmost(s, 0, 0, LinkMatcher(ImageRefPattern), ById(urls));
    assert s[0..|s|] == s;
  }

  // ---------------------------------------------------------------------------
  // replaceImageUrlsInMarkdownAdvanced (lines 63-116)
  // ---------------------------------------------------------------------------

  /**
   * The candidate of line 73: the url of the first file with a belongs-to
   * key, even when that url is empty; "" when no file has a key.
   */
  function FirstBelongingUrl(files: seq<VisionFile>): (url: string)
    ensures (forall i :: 0 <= i < |files| ==> files[i].belongsTo == "") ==> url == ""
    ensures forall k :: 0 <= k < |files| && FirstBelonging(files, k) ==> url == files[k].url
  {
    if files == [] then ""
    else if files[0].belongsTo != "" then files[0].url
    else
      var url := FirstBelongingUrl(files[1..]);
      assert forall i :: 1 <= i < |files| ==> files[1..][i - 1] == files[i];
      assert forall k :: 1 <= k < |files| && FirstBelonging(files, k) ==> FirstBelonging(files[1..], k - 1);
      url
  }

  /** `files[k]` is the first file with a belongs-to key. */
  predicate FirstBelonging(files: seq<VisionFile>, k: nat)
    requires k < |files|
  {
    files[k].belongsTo != "" && forall j :: 0 <= j < k ==> files[j].belongsTo == ""
  }

  /** The single url every match is rewritten to (lines 72-77). */
  function CandidateUrl(content: string, files: seq<VisionFile>): string {
    if |files| > 0 then FirstBelongingUrl(files) else ExtractedImageUrl(content)
  }

  /**
   * Runs the `[alt](/files/tools/…)` pass, then the `[alt](sandbox:/files/tools/…)`
   * pass over its output, each rewriting every match to `![alt](candidate)`
   * when the candidate is non-empty; appends the fallback image line iff
   * nothing was rewritten and there are files.
   */
  method ReplaceImageUrlsInMarkdownAdvanced(content: string, files: seq<VisionFile>) returns (result: string)
    ensures CandidateUrl(content, files) == "" ==> result == content + (if files == [] then "" else FallbackImage(""))
    ensures var url := CandidateUrl(content, files);
            var first := ReplaceAll(content, 0, LinkMatcher(ToolLinkPattern), ToCandidate(url)).text;
            var second := ReplaceAll(first, 0, LinkMatcher(SandboxLinkPattern), ToCandidate(url)).text;
            var none := MatchCount(content, 0, LinkMatcher(ToolLinkPattern)) == 0 && MatchCount(first, 0, LinkMatcher(SandboxLinkPattern)) == 0;
            url != "" ==> result == second + (if none && files != [] then FallbackImage(url) else "")
  {
    result := content;
    var matchRealUrl := "";
    var matched := false;
    if |files| > 0 {
      matchRealUrl := FirstBelongingUrl(files);
    } else {
      matchRealUrl := ExtractImageUrl(result);
    }

    var first := ReplaceAll(result, 0, LinkMatcher(ToolLinkPattern), ToCandidate(matchRealUrl));
    result := first.text;
    if first.rewrites > 0 {
      matched := true;
    }

    var second := ReplaceAll(result, 0, LinkMatcher(SandboxLinkPattern), ToCandidate(matchRealUrl));
    result := second.text;
    if second.rewrites > 0 {
      matched := true;
    }

    if !matched && |files| > 0 {
      result := result + FallbackImage(matchRealUrl);
    }

    if matchRealUrl == "" {
      ReplaceAllInert(content, 0, LinkMatcher(ToolLinkPattern), ToCandidate(matchRealUrl));
      ReplaceAllInert(first.text, 0, LinkMatcher(SandboxLinkPattern), ToCandidate(matchRealUrl));
    } else {
      ReplaceAllRewritesEveryMatch(content, 0, LinkMatcher(ToolLinkPattern), matchRealUrl);
      ReplaceAllRewritesEveryMatch(first.text, 0, LinkMatcher(SandboxLinkPattern), matchRealUrl);
    }
  }

  /**
   * The match starts at `[`, so a `!` in front of it stays:
   * `![x](/files/tools/a.png)` becomes `!![x](candidate)`.
   */
  lemma KeepsPrecedingBang(s: string, alt: string, body: string, url: string)
    requires LinkParts(alt, body) && url != ""
    requires |s| >= 1 && s[0] == '!' && s[1..] == LinkText(ToolLinkPattern, alt, body)
    ensures ReplaceAll(s, 0, LinkMatcher(ToolLinkPattern), ToCandidate(url)).text == "!" + ImageText(alt, url)
  {
    NoToolLinkAtBang(s);
    ToolLinkAfterBang(s, alt, body);
    ReplaceAllLeftmost(s, 0, 1, LinkMatcher(ToolLinkPattern), ToCandidate(url));
    assert s[0..1] == "!";
  }

  lemma NoToolLinkAtBang(s: string)
    requires |s| >= 1 && s[0] == '!'
    ensures LinkMatcher(ToolLinkPattern)(s, 0).None?
  {
    assert ToolLinkPattern.lead == "[";
    assert s[0 + 0] != ToolLinkPattern.lead[0];
  }

  lemma ToolLinkAfterBang(s: string, alt: string, body: string)
    requires LinkParts(alt, body)
    requires |s| >= 1 && s[1..] == LinkText(ToolLinkPattern, alt, body)
    ensures LinkMatcher(ToolLinkPattern)(s, 1) == Some(LinkMatch(alt, LazyId(body), |s|))
  {
    assert s[1..|s|] == s[1..];
    LinkAtComplete(s, 1, ToolLinkPattern, alt, body);
  }

  // ---------------------------------------------------------------------------
  // extractImageUrl (lines 123-133)
  // ---------------------------------------------------------------------------

  /** The matches `matchAll` yields for a global pattern from position `i` on. */
  function ImageMatches(s: string, i: nat, scan: ImageMatcher): seq<ImageRef>
    requires i <= |s|
    decreases |s| - i
  {
    if i == |s| then []
    else match scan(s, i)
      case None => ImageMatches(s, i + 1, scan)
      case Some(m) => [m] + ImageMatches(s, m.end, scan)
  }

  /** Every url lies on one line and holds no `)`. */
  predicate CleanUrls(ms: seq<ImageRef>) {
    forall k :: 0 <= k < |ms| ==> NoChar(ms[k].url, ')') && OnOneLine(ms[k].url)
  }

  /** Capture 1 of every match of `/!\[.*?\]\((.*?)\)/g` lies on one line and holds no `)`. */
  lemma {:induction false} ImageMatchUrls(s: string, i: nat)
    requires i <= |s|
    ensures CleanUrls(ImageMatches(s, i, ImageScanner()))
    decreases |s| - i
  {
    if i < |s| {
      var scan := ImageScanner();
      assert scan(s, i) == ImageAt(s, i);
      match ImageAt(s, i)
      case None =>
        ImageMatchUrls(s, i + 1);
        assert ImageMatches(s, i, scan) == ImageMatches(s, i + 1, scan);
      case Some(m) =>
        ImageMatchUrls(s, m.end);
        var rest := ImageMatches(s, m.end, scan);
        assert ImageMatches(s, i, scan) == [m] + rest;
        assert forall k :: 1 <= k <= |rest| ==> ([m] + rest)[k] == rest[k - 1];
    }
  }

  /** The url of the first match whose url contains the upload marker, or "". */
  function FirstUploadUrl(ms: seq<ImageRef>): (url: string)
    ensures url == "" <==> forall k :: 0 <= k < |ms| ==> !Contains(ms[k].url, UploadMarker)
    ensures url != "" ==> exists k :: 0 <= k < |ms| && url == ms[k].url && Contains(url, UploadMarker)
                                      && forall j :: 0 <= j < k ==> !Contains(ms[j].url, UploadMarker)
  {
    if ms == [] then ""
    else if Contains(ms[0].url, UploadMarker) then
      assert ms[0].url != "";
      ms[0].url
    else
      var url := FirstUploadUrl(ms[1..]);
      assert forall k :: 1 <= k < |ms| ==> ms[1..][k - 1] == ms[k];
      url
  }

  /** matchAll skips a stretch in which no match starts: the matches are the leftmost ones. */
  lemma {:induction false} ImageMatchesSkip(s: string, i: nat, p: nat, scan: ImageMatcher)
    requires i <= p <= |s|
    requires forall j :: i <= j < p ==> scan(s, j).None?
    ensures ImageMatches(s, i, scan) == ImageMatches(s, p, scan)
    decreases p - i
  {
    if i < p {
      ImageMatchesSkip(s, i + 1, p, scan);
    }
  }

  /**
   * What extractImageUrl returns for `text`: "" or the url of a match on one
   * line, which contains the upload marker and neither `)` nor a line terminator.
   */
  function ExtractedImageUrl(text: string): (url: string)
    ensures url == "" || (Contains(url, UploadMarker) && NoChar(url, ')') && OnOneLine(url))
  {
    var ms := ImageMatches(text, 0, ImageScanner());
    ImageMatchUrls(text, 0);
    FirstUploadUrl(ms)
  }

  /** A lone image `![alt](url)` whose url carries the upload marker yields that url. */
  lemma ExtractFindsLoneUploadImage(alt: string, url: string)
    requires OnOneLine(alt) && OnOneLine(url) && NoChar(alt, ']') && NoChar(url, ')')
    requires Contains(url, UploadMarker)
    ensures ExtractedImageUrl(ImageText(alt, url)) == url
  {
    var s := ImageText(alt, url);
    assert s[0..|s|] == s;
    ImageAtExact(s, 0, alt, url);
    assert ImageMatches(s, 0, ImageScanner()) == [ImageRef(alt, url, |s|)];
  }

  /** The `for…of` loop over `matchAll` with its early return. */
  method ExtractImageUrl(text: string) returns (url: string)
    ensures url == ExtractedImageUrl(text)
  {
    var scan := ImageScanner();
    var i := 0;
    while i < |text|
      invariant 0 <= i <= |text|
      invariant FirstUploadUrl(ImageMatches(text, 0, scan)) == FirstUploadUrl(ImageMatches(text, i, scan))
      decreases |text| - i
    {
      match scan(text, i)
      case None =>
        i := i + 1;
      case Some(m) =>
        assert ImageMatches(text, i, scan) == [m] + ImageMatches(text, m.end, scan);
        if Contains(m.url, UploadMarker) {
          return m.url;
        }
        assert ([m] + ImageMatches(text, m.end, scan))[1..] == ImageMatches(text, m.end, scan);
        i := m.end;
    }
    return "";
  }
}
