/**
 * Hand-written scanners for the four regular expressions of
 * utils/image-url-replacer.ts.  Each scanner answers one question: does the
 * pattern match at position `p` of `s`, and with which captures?  The
 * leftmost, non-overlapping, global behaviour of `replace` and `matchAll` is
 * built on top of these in module ImageUrlReplacer.
 */
module MarkdownPatterns {

  datatype Option<T> = None | Some(value: T)

  /** The characters that a JavaScript `.` does not match (no `s` flag). */
  predicate IsLineTerminator(c: char) {
    c == '\n' || c == '\r' || c == '\U{2028}' || c == '\U{2029}'
  }

  predicate NoChar(s: string, c: char) {
    forall k :: 0 <= k < |s| ==> s[k] != c
  }

  predicate OnOneLine(s: string) {
    forall k :: 0 <= k < |s| ==> !IsLineTerminator(s[k])
  }

  predicate StartsWith(s: string, t: string) {
    |t| <= |s| && s[..|t|] == t
  }

  /** `t` stands in `s` at index `i`. */
  predicate SliceIs(s: string, i: nat, t: string) {
    i + |t| <= |s| && forall k :: 0 <= k < |t| ==> s[i + k] == t[k]
  }

  /** `s.includes(t)`. */
  predicate Contains(s: string, t: string)
    decreases |s|
  {
    StartsWith(s, t) || (|s| > 0 && Contains(s[1..], t))
  }

  /** Index of the first `c` in `s` at or after `from`, or `|s|` when there is none. */
  function FindChar(s: string, from: nat, c: char): (k: nat)
    requires from <= |s|
    ensures from <= k <= |s|
    ensures k < |s| ==> s[k] == c
    ensures forall j :: from <= j < k ==> s[j] != c
    decreases |s| - from
  {
    if from == |s| || s[from] == c then from else FindChar(s, from + 1, c)
  }

  /** Slicing at an intermediate index splits a slice in two. */
  lemma SliceSplit(s: string, i: nat, j: nat, k: nat)
    requires i <= j <= k <= |s|
    ensures s[i..k] == s[i..j] + s[j..k]
  {
  }

  /** Slicing at four intermediate indices splits a slice in five. */
  lemma SliceSplit5(s: string, i0: nat, i1: nat, i2: nat, i3: nat, i4: nat, i5: nat)
    requires i0 <= i1 <= i2 <= i3 <= i4 <= i5 <= |s|
    ensures s[i0..i5] == s[i0..i1] + s[i1..i2] + s[i2..i3] + s[i3..i4] + s[i4..i5]
  {
    SliceSplit(s, i0, i1, i2);
    SliceSplit(s, i0, i2, i3);
    SliceSplit(s, i0, i3, i4);
    SliceSplit(s, i0, i4, i5);
  }

  /** A stretch of `s` without `c` is a slice without `c`. */
  lemma NoCharSlice(s: string, i: nat, j: nat, c: char)
    requires i <= j <= |s|
    requires forall k :: i <= k < j ==> s[k] != c
    ensures NoChar(s[i..j], c)
  {
    forall k | 0 <= k < j - i ensures s[i..j][k] != c { assert s[i..j][k] == s[i + k]; }
  }

  /** SliceIs read as a slice equality. */
  lemma SliceIsSlice(s: string, i: nat, t: string)
    requires SliceIs(s, i, t)
    ensures s[i..i + |t|] == t
  {
    assert forall k :: 0 <= k < |t| ==> s[i..i + |t|][k] == t[k];
  }

  /** A slice equal to `x + y` splits into a slice equal to `x` and one equal to `y`. */
  lemma SliceOfConcat(s: string, p: nat, x: string, y: string)
    requires p + |x| + |y| <= |s| && s[p..p + |x| + |y|] == x + y
    ensures s[p..p + |x|] == x && s[p + |x|..p + |x| + |y|] == y
  {
    forall k | 0 <= k < |x| ensures s[p..p + |x|][k] == x[k] {
      assert s[p + k] == (x + y)[k];
    }
    forall k | 0 <= k < |y| ensures s[p + |x|..p + |x| + |y|][k] == y[k] {
      assert s[p + |x| + k] == (x + y)[|x| + k];
    }
  }

  // ---------------------------------------------------------------------------
  // The link-shaped patterns
  //   /!\[([^\]]*)\]\(\/files\/tools\/([^)]+?)(?:\.[^)]+)?\)/g           (line 46)
  //   /\[([^\]]*)\]\(\/files\/tools\/([^)]+?)(?:\.[^)]+)?\)/g            (line 84)
  //   /\[([^\]]*)\]\(sandbox:\/files\/tools\/([^)]+?)(?:\.[^)]+)?\)/g    (line 97)
  // differ only in what precedes the alt text and in the path after `](`.
  // ---------------------------------------------------------------------------

  datatype LinkPattern = LinkPattern(lead: string, path: string)

  const ImageRefPattern := LinkPattern("![", "/files/tools/")
  const ToolLinkPattern := LinkPattern("[", "/files/tools/")
  const SandboxLinkPattern := LinkPattern("[", "sandbox:/files/tools/")

  /** One match: capture 1 (alt), capture 2 (the id) and the index just past the closing `)`. */
  datatype LinkMatch = LinkMatch(alt: string, id: string, end: nat)

  /** The text a match covers: `lead alt](path body)`, where body is the id and its optional extension. */
  function LinkText(pat: LinkPattern, alt: string, body: string): string {
    pat.lead + alt + ("](" + pat.path) + body + ")"
  }

  /** What `[^\]]*` and `[^)]+?(?:\.[^)]+)?` accept: alt without `]`, a non-empty body without `)`. */
  predicate LinkParts(alt: string, body: string) {
    NoChar(alt, ']') && |body| >= 1 && NoChar(body, ')')
  }

  /** `body[j..]` is what `(?:\.[^)]+)?` followed by the end of the body accepts. */
  predicate ExtSuffixAt(body: string, j: nat)
    requires j <= |body|
  {
    j == |body| || (body[j] == '.' && j + 2 <= |body|)
  }

  /**
   * The lazy `([^)]+?)` takes the shortest prefix of at least `k` characters
   * after which the optional extension group can finish the body.
   */
  function LazyIdFrom(body: string, k: nat): (id: string)
    requires 1 <= k <= |body|
    ensures k <= |id| <= |body| && id == body[..|id|]
    ensures ExtSuffixAt(body, |id|)
    ensures forall j :: k <= j < |id| ==> !ExtSuffixAt(body, j)
    decreases |body| - k
  {
    if k >= |body| - 1 then body
    else if body[k] == '.' then body[..k]
    else LazyIdFrom(body, k + 1)
  }

  /** Capture 2 of a link match whose id-and-extension text is `body`. */
  function LazyId(body: string): (id: string)
    requires |body| >= 1
    ensures 1 <= |id| <= |body| && id == body[..|id|]
    ensures ExtSuffixAt(body, |id|)
    ensures forall j :: 1 <= j < |id| ==> !ExtSuffixAt(body, j)
  {
    LazyIdFrom(body, 1)
  }

  /** The match of a link pattern that starts exactly at `p`, if any. */
  function LinkAt(s: string, p: nat, pat: LinkPattern): (r: Option<LinkMatch>)
    ensures r.Some? ==> p < r.value.end <= |s|
  {
    if !SliceIs(s, p, pat.lead) then None
    else
      var a := p + |pat.lead|;
      var close := FindChar(s, a, ']');
      var q := close + 2 + |pat.path|;
      if !SliceIs(s, close, "](" + pat.path) then None
      else
        var e := FindChar(s, q, ')');
        if e == |s| || e == q then None
        else Some(LinkMatch(s[a..close], LazyId(s[q..e]), e + 1))
  }

  /**
   * A global pattern as `String.prototype.replace` sees it: the match that
   * starts at a position, if any, ending after that position and within the text.
   */
  type Matcher = scan: (string, nat) -> Option<LinkMatch>
    | forall s: string, p: nat :: scan(s, p).Some? ==> p < scan(s, p).value.end <= |s|
    witness (s: string, p: nat) => None

  /** The matcher of the regular expression `pat` stands for. */
  function LinkMatcher(pat: LinkPattern): Matcher {
    (s: string, p: nat) => LinkAt(s, p, pat)
  }

  /** Slices that hold the lead, `](` path and `)` of a link join into its whole text. */
  lemma JoinLinkParts(s: string, p: nat, a: nat, c: nat, q: nat, e: nat, pat: LinkPattern)
    requires a == p + |pat.lead| && a <= c && q == c + 2 + |pat.path| && q <= e < |s|
    requires SliceIs(s, p, pat.lead) && SliceIs(s, c, "](" + pat.path) && s[e] == ')'
    ensures s[p..e + 1] == LinkText(pat, s[a..c], s[q..e])
  {
    SliceIsSlice(s, p, pat.lead);
    SliceIsSlice(s, c, "](" + pat.path);
    SliceSplit5(s, p, a, c, q, e, e + 1);
    assert s[e..e + 1] == ")";
  }

  /** Where LinkAt finds a match, the indices of its `]` and its closing `)`. */
  lemma LinkAtIndices(s: string, p: nat, pat: LinkPattern) returns (c: nat, e: nat)
    requires LinkAt(s, p, pat).Some?
    ensures var a := p + |pat.lead|;
            var q := c + 2 + |pat.path|;
            a <= c && q < e < |s| && SliceIs(s, p, pat.lead) && SliceIs(s, c, "](" + pat.path) && s[e] == ')'
            && (forall j :: a <= j < c ==> s[j] != ']') && (forall j :: q <= j < e ==> s[j] != ')')
            && LinkAt(s, p, pat) == Some(LinkMatch(s[a..c], LazyId(s[q..e]), e + 1))
  {
    c := FindChar(s, p + |pat.lead|, ']');
    e := FindChar(s, c + 2 + |pat.path|, ')');
  }

  /** A match found by LinkAt is `lead alt](path body)` for an alt and a body the regex accepts. */
  lemma LinkAtSound(s: string, p: nat, pat: LinkPattern)
    requires LinkAt(s, p, pat).Some?
    ensures exists alt, body :: LinkParts(alt, body)
              && p + |LinkText(pat, alt, body)| <= |s|
              && s[p..p + |LinkText(pat, alt, body)|] == LinkText(pat, alt, body)
              && LinkAt(s, p, pat) == Some(LinkMatch(alt, LazyId(body), p + |LinkText(pat, alt, body)|))
  {
    var c, e := LinkAtIndices(s, p, pat);
    var alt, body := s[p + |pat.lead|..c], s[c + 2 + |pat.path|..e];
    LinkTextAt(s, p, c, e, pat);
    assert LinkAt(s, p, pat) == Some(LinkMatch(alt, LazyId(body), p + |LinkText(pat, alt, body)|));
  }

  /** Located lead, `]`, `](` path and `)` delimit a link text with parts the regex accepts. */
  lemma LinkTextAt(s: string, p: nat, c: nat, e: nat, pat: LinkPattern)
    requires var a := p + |pat.lead|;
             var q := c + 2 + |pat.path|;
             a <= c && q < e < |s| && SliceIs(s, p, pat.lead) && SliceIs(s, c, "](" + pat.path) && s[e] == ')'
             && (forall j :: a <= j < c ==> s[j] != ']') && (forall j :: q <= j < e ==> s[j] != ')')
    ensures var alt := s[p + |pat.lead|..c];
            var body := s[c + 2 + |pat.path|..e];
            LinkParts(alt, body) && p + |LinkText(pat, alt, body)| == e + 1
            && s[p..e + 1] == LinkText(pat, alt, body)
  {
    var a := p + |pat.lead|;
    var q := c + 2 + |pat.path|;
    NoCharSlice(s, a, c, ']');
    NoCharSlice(s, q, e, ')');
    JoinLinkParts(s, p, a, c, q, e, pat);
  }

  /** LinkAt at `p` when the lead, alt, `](` path, body and `)` have been located one by one. */
  lemma LinkAtFromParts(s: string, p: nat, pat: LinkPattern, alt: string, body: string)
    requires LinkParts(alt, body)
    requires var a := p + |pat.lead|;
             var c := a + |alt|;
             var q := c + 2 + |pat.path|;
             var e := q + |body|;
             e < |s| && s[p..a] == pat.lead && s[a..c] == alt && s[c..q] == "](" + pat.path
             && s[q..e] == body && s[e] == ')'
    ensures LinkAt(s, p, pat) == Some(LinkMatch(alt, LazyId(body), p + |LinkText(pat, alt, body)|))
  {
    var a := p + |pat.lead|;
    var c := a + |alt|;
    var q := c + 2 + |pat.path|;
    var e := q + |body|;
    assert SliceIs(s, p, pat.lead) && SliceIs(s, c, "](" + pat.path);
    assert s[c] == ']' by { assert s[c..q][0] == s[c]; }
    forall j | a <= j < c ensures s[j] != ']' { assert s[j] == alt[j - a]; }
    forall j | q <= j < e ensures s[j] != ')' { assert s[j] == body[j - q]; }
    assert FindChar(s, a, ']') == c;
    assert FindChar(s, q, ')') == e;
    assert e + 1 == p + |LinkText(pat, alt, body)|;
  }

  /** Conversely, wherever `lead alt](path body)` stands with acceptable parts, LinkAt finds exactly it. */
  lemma LinkAtComplete(s: string, p: nat, pat: LinkPattern, alt: string, body: string)
    requires LinkParts(alt, body)
    requires p + |LinkText(pat, alt, body)| <= |s|
    requires s[p..p + |LinkText(pat, alt, body)|] == LinkText(pat, alt, body)
    ensures LinkAt(s, p, pat) == Some(LinkMatch(alt, LazyId(body), p + |LinkText(pat, alt, body)|))
  {
    SplitLinkText(s, p, pat, alt, body);
    LinkAtFromParts(s, p, pat, alt, body);
  }

  /** The whole text of a link standing at `p` splits into its five parts. */
  lemma SplitLinkText(s: string, p: nat, pat: LinkPattern, alt: string, body: string)
    requires p + |LinkText(pat, alt, body)| <= |s|
    requires s[p..p + |LinkText(pat, alt, body)|] == LinkText(pat, alt, body)
    ensures var a := p + |pat.lead|;
            var c := a + |alt|;
            var q := c + 2 + |pat.path|;
            var e := q + |body|;
            e < |s| && s[p..a] == pat.lead && s[a..c] == alt && s[c..q] == "](" + pat.path
            && s[q..e] == body && s[e] == ')'
  {
    var head := pat.lead + alt;
    var mid := "](" + pat.path;
    var a := p + |pat.lead|;
    var c := a + |alt|;
    var q := c + |mid|;
    var e := q + |body|;
    SliceOfConcat(s, p, head, mid + (body + ")"));
    SliceOfConcat(s, p, pat.lead, alt);
    SliceOfConcat(s, c, mid, body + ")");
    SliceOfConcat(s, q, body, ")");
    assert s[e] == ')' by { assert s[e..e + 1][0] == s[e]; }
  }


  // ---------------------------------------------------------------------------
  // The image pattern of extractImageUrl (line 124):  /!\[.*?\]\((.*?)\)/g
  // ---------------------------------------------------------------------------

  /** One match: the lazy alt, capture 1 (the url) and the index just past the closing `)`. */
  datatype ImageRef = ImageRef(alt: string, url: string, end: nat)

  function ImageText(alt: string, url: string): string {
    "![" + alt + "](" + url + ")"
  }

  /** `]` immediately followed by `(` at index `j`. */
  predicate AltCloseAt(s: string, j: int) {
    0 <= j && j + 1 < |s| && s[j] == ']' && s[j + 1] == '('
  }

  /** The first `](` at or after `from` on the current line, if one comes before a line terminator. */
  function FindAltClose(s: string, from: nat): (r: Option<nat>)
    requires from <= |s|
    ensures r.Some? ==> from <= r.value && AltCloseAt(s, r.value)
    ensures r.Some? ==> forall j :: from <= j < r.value ==> !IsLineTerminator(s[j]) && !AltCloseAt(s, j)
    decreases |s| - from
  {
    if from + 1 >= |s| || IsLineTerminator(s[from]) then None
    else if AltCloseAt(s, from) then Some(from)
    else FindAltClose(s, from + 1)
  }

  /** The first `)` at or after `from`, if one comes before a line terminator. */
  function FindUrlClose(s: string, from: nat): (r: Option<nat>)
    requires from <= |s|
    ensures r.Some? ==> from <= r.value < |s| && s[r.value] == ')'
    ensures r.Some? ==> forall j :: from <= j < r.value ==> !IsLineTerminator(s[j]) && s[j] != ')'
    decreases |s| - from
  {
    if from == |s| || IsLineTerminator(s[from]) then None
    else if s[from] == ')' then Some(from)
    else FindUrlClose(s, from + 1)
  }

  /** The match of the extract pattern that starts exactly at `p`, if any. */
  function ImageAt(s: string, p: nat): (r: Option<ImageRef>)
    ensures r.Some? ==> p < r.value.end <= |s|
    ensures r.Some? ==> NoChar(r.value.url, ')') && OnOneLine(r.value.url)
  {
    if p + 2 > |s| || s[p] != '!' || s[p + 1] != '[' then None
    else match FindAltClose(s, p + 2)
      case None => None
      case Some(k) =>
        match FindUrlClose(s, k + 2)
        case None => None
        case Some(e) =>
          Some(ImageRef(s[p + 2..k], s[k + 2..e], e + 1))
  }

  /** The image pattern as `matchAll` sees it: the match starting at a position, if any. */
  type ImageMatcher = scan: (string, nat) -> Option<ImageRef>
    | forall s: string, p: nat :: scan(s, p).Some? ==> p < scan(s, p).value.end <= |s|
    witness (s: string, p: nat) => None

  function ImageScanner(): ImageMatcher {
    (s: string, p: nat) => ImageAt(s, p)
  }

  /**
   * A match found by ImageAt covers `![alt](url)` on one line; no shorter alt
   * reaches a `](`, and the url stops at the first `)`: the lazy choices.
   */
  lemma ImageAtSound(s: string, p: nat)
    requires p <= |s| && ImageAt(s, p).Some?
    ensures var m := ImageAt(s, p).value;
            m.end == p + |ImageText(m.alt, m.url)|
            && s[p..m.end] == ImageText(m.alt, m.url)
            && OnOneLine(m.alt) && OnOneLine(m.url) && NoChar(m.url, ')')
            && forall j :: p + 2 <= j < p + 2 + |m.alt| ==> !AltCloseAt(s, j)
  {
    var m := ImageAt(s, p).value;
    var k := FindAltClose(s, p + 2).value;
    var e := FindUrlClose(s, k + 2).value;
    assert m == ImageRef(s[p + 2..k], s[k + 2..e], e + 1);
    forall j | 0 <= j < |m.alt| ensures !IsLineTerminator(m.alt[j]) { assert m.alt[j] == s[p + 2 + j]; }
    JoinImageParts(s, p, k, e);
  }

  /** Slices that hold `![`, `](` and `)` join into the whole text of an image reference. */
  lemma JoinImageParts(s: string, p: nat, k: nat, e: nat)
    requires p + 2 <= k && k + 2 <= e < |s|
    requires s[p] == '!' && s[p + 1] == '[' && s[k] == ']' && s[k + 1] == '(' && s[e] == ')'
    ensures s[p..e + 1] == ImageText(s[p + 2..k], s[k + 2..e])
  {
    SliceSplit5(s, p, p + 2, k, k + 2, e, e + 1);
    assert s[p..p + 2] == "![" && s[k..k + 2] == "](" && s[e..e + 1] == ")";
  }

  lemma FindAltCloseReaches(s: string, from: nat, k: nat)
    requires from <= k && AltCloseAt(s, k)
    requires forall j :: from <= j < k ==> !IsLineTerminator(s[j])
    ensures FindAltClose(s, from).Some? && FindAltClose(s, from).value <= k
    decreases k - from
  {
    if from < k && !AltCloseAt(s, from) {
      FindAltCloseReaches(s, from + 1, k);
    }
  }

  lemma FindUrlCloseReaches(s: string, from: nat, e: nat)
    requires from <= e < |s| && s[e] == ')'
    requires forall j :: from <= j < e ==> !IsLineTerminator(s[j])
    ensures FindUrlClose(s, from).Some?
    decreases e - from
  {
    if from < e && s[from] != ')' {
      FindUrlCloseReaches(s, from + 1, e);
    }
  }

  /**
   * Wherever `![alt](url)` stands on one line (for any alt and url, also ones
   * containing `](` or `)`), the regex matches at `p`: backtracking can always
   * fall back to the first `](` and the first `)`.  Its alt is then no longer.
   */
  lemma ImageAtComplete(s: string, p: nat, alt: string, url: string)
    requires OnOneLine(alt) && OnOneLine(url)
    requires p + |ImageText(alt, url)| <= |s|
    requires s[p..p + |ImageText(alt, url)|] == ImageText(alt, url)
    ensures ImageAt(s, p).Some? && |ImageAt(s, p).value.alt| <= |alt|
  {
    var c := p + 2 + |alt|;
    var e := c + 2 + |url|;
    ImageTextChars(s, p, alt, url);
    FindAltCloseReaches(s, p + 2, c);
    var k := FindAltClose(s, p + 2).value;
    forall j | k + 2 <= j < e ensures !IsLineTerminator(s[j]) {
      if j >= c + 2 {
      } else if j < c {
      }
    }
    FindUrlCloseReaches(s, k + 2, e);
  }

  /** The characters of an image text standing at `p` that the scanner looks at. */
  lemma ImageTextChars(s: string, p: nat, alt: string, url: string)
    requires OnOneLine(alt) && OnOneLine(url)
    requires p + |ImageText(alt, url)| <= |s|
    requires s[p..p + |ImageText(alt, url)|] == ImageText(alt, url)
    ensures var c := p + 2 + |alt|;
            var e := c + 2 + |url|;
            e < |s| && s[p] == '!' && s[p + 1] == '[' && AltCloseAt(s, c) && s[e] == ')'
            && (forall j :: p + 2 <= j < c ==> !IsLineTerminator(s[j]))
            && (forall j :: c + 2 <= j < e ==> !IsLineTerminator(s[j]))
  {
    var t := ImageText(alt, url);
    var c := p + 2 + |alt|;
    var e := c + 2 + |url|;
    assert s[p..e + 1] == t;
    assert s[p] == '!' && s[p + 1] == '[';
    forall j | p + 2 <= j < c ensures !IsLineTerminator(s[j]) && s[j] == alt[j - p - 2] {
      assert s[j] == t[j - p];
    }
    assert s[c] == ']' && s[c + 1] == '(' by { assert s[c] == t[c - p]; assert s[c + 1] == t[c + 1 - p]; }
    forall j | c + 2 <= j < e ensures !IsLineTerminator(s[j]) { assert s[j] == url[j - c - 2]; }
    assert s[e] == ')' by { assert s[e] == t[|t| - 1]; }
  }


  /** ImageAt at `p` when `![`, the alt, `](`, the url and `)` have been located one by one. */
  lemma ImageAtFromParts(s: string, p: nat, alt: string, url: string, c: nat, e: nat)
    requires OnOneLine(alt) && OnOneLine(url) && NoChar(alt, ']') && NoChar(url, ')')
    requires c == p + 2 + |alt| && e == c + 2 + |url| && e < |s|
    requires s[p..p + 2] == "![" && s[p + 2..c] == alt && s[c..c + 2] == "](" && s[c + 2..e] == url && s[e] == ')'
    ensures ImageAt(s, p) == Some(ImageRef(alt, url, e + 1))
  {
    assert s[p] == '!' && s[p + 1] == '[' by { assert s[p..p + 2][0] == s[p] && s[p..p + 2][1] == s[p + 1]; }
    assert s[c] == ']' && s[c + 1] == '(' by { assert s[c..c + 2][0] == s[c] && s[c..c + 2][1] == s[c + 1]; }
    forall j | p + 2 <= j < c ensures !IsLineTerminator(s[j]) && s[j] != ']' {
      assert s[j] == s[p + 2..c][j - p - 2];
    }
    forall j | c + 2 <= j < e ensures !IsLineTerminator(s[j]) && s[j] != ')' {
      assert s[j] == s[c + 2..e][j - c - 2];
    }
    FindAltCloseReaches(s, p + 2, c);
    assert FindAltClose(s, p + 2) == Some(c);
    FindUrlCloseReaches(s, c + 2, e);
    assert FindUrlClose(s, c + 2) == Some(e);
  }

  /**
   * When the alt holds no `]` and the url no `)`, the match at `p` captures
   * exactly that alt and that url.
   */
  lemma ImageAtExact(s: string, p: nat, alt: string, url: string)
    requires OnOneLine(alt) && OnOneLine(url) && NoChar(alt, ']') && NoChar(url, ')')
    requires p + |ImageText(alt, url)| <= |s|
    requires s[p..p + |ImageText(alt, url)|] == ImageText(alt, url)
    ensures ImageAt(s, p) == Some(ImageRef(alt, url, p + |ImageText(alt, url)|))
  {
    var c := p + 2 + |alt|;
    var e := c + 2 + |url|;
    SliceOfConcat(s, p, "![" + alt + "](" + url, ")");
    SliceOfConcat(s, p, "![" + alt + "](", url);
    SliceOfConcat(s, p, "![" + alt, "](");
    SliceOfConcat(s, p, "![", alt);
    assert s[e] == ')' by { assert s[e..e + 1][0] == s[e]; }
    ImageAtFromParts(s, p, alt, url, c, e);
  }
}
