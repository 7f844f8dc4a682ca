# Image-url replacer for chat markdown

This project models the markdown image-reference rewriter of
`utils/image-url-replacer.ts`. It has three functions:

- `replaceImageUrlsInMarkdown` builds a map from each attachment's
  belongs-to key to its url. It then rewrites every
  `![alt](/files/tools/ID[.ext])` whose ID has a url in that map.
- `replaceImageUrlsInMarkdownAdvanced` is the function the chat UI uses.
  1. It resolves one candidate url: the url of the first attachment that has
     a belongs-to key, or the result of `extractImageUrl` when there are no
     attachments.
  2. It rewrites every `[alt](/files/tools/…)`, and then every
     `[alt](sandbox:/files/tools/…)` in the result of the first pass, to
     `![alt](candidate)`.
  3. When nothing was rewritten and there are attachments, it appends
     `\n![图片附件](candidate)`.
- `extractImageUrl` returns capture 1 of the first `/!\[.*?\]\((.*?)\)/g`
  match that contains `https://upload.dify.ai/files/tools/`, or `""`.

The model is in two modules.

`MarkdownPatterns` (`patterns.dfy`) holds hand-written scanners for the four
regular expressions. Each scanner answers whether the pattern matches at a
given index, and with which captures. `LinkAt` covers the three link
patterns (lines 46, 84 and 97). They differ only in their lead (`![` or `[`)
and their path (`/files/tools/` or `sandbox:/files/tools/`).
- `[^\]]*` makes the alt run to the first `]`.
- The id and extension groups both exclude `)`, so a match ends at the first
  `)` after the path.
- The lazy id is the shortest non-empty prefix of the body after which the
  rest is empty or a `.` followed by at least one character (`LazyId`).

`ImageAt` covers the pattern of line 124. `.` matches neither `\n`, `\r`,
U+2028 nor U+2029. Backtracking therefore makes the alt run to the first
`](` on the line, and the url to the first `)` after it on the same line.

For each scanner, a soundness lemma and a completeness lemma relate its
result to the text the regular expression accepts.

`ImageUrlReplacer` (`image_url_replacer.dfy`) holds the rest:
- `ReplaceAll` models `String.prototype.replace` with a global pattern and a
  callback, over any `Matcher`. It tries each index from the left. A match is
  replaced by the callback's value and scanning resumes after it; otherwise
  one character is copied. It also counts how many matches the callback
  rewrote, which is what the `matched` flag of the Advanced function records.
- `ImageMatches` models `matchAll` in the same way.
- The two exported functions and `extractImageUrl` are methods that follow the source's
  assignments and loops. Each is proved against a specification function:
  `UrlMapOf`, `ReplaceAll`, `CandidateUrl` and `ExtractedImageUrl`.

Attachment fields that are missing or empty are both modelled as `""`, which
is how the source's truthiness tests treat them. A null attachment list is
modelled as the empty sequence.

## Model

| member | source | states |
|---|---|---|
| `MarkdownPatterns.LazyId` | utils/image-url-replacer.ts:46 | capture 2 of `([^)]+?)(?:\.[^)]+)?\)`: a non-empty prefix of the body, after which the rest is empty or `.` plus at least one character; no shorter prefix allows that |
| `MarkdownPatterns.LinkAtSound` | utils/image-url-replacer.ts:46 | a link match found at `p` is exactly `lead alt](path body)` with no `]` in alt and a non-empty body without `)`; its captures are that alt and `LazyId(body)` |
| `MarkdownPatterns.LinkAtComplete` | utils/image-url-replacer.ts:84 | conversely, wherever `lead alt](path body)` stands with such parts, the scanner matches it with those captures and ends after the `)` |
| `MarkdownPatterns.ImageAtSound` | utils/image-url-replacer.ts:124 | an image match is `![alt](url)` with alt and url on one line, no `)` in the url, and no `](` inside the alt (the lazy alt is the shortest) |
| `MarkdownPatterns.ImageAtComplete` | utils/image-url-replacer.ts:124 | wherever `![alt](url)` stands on one line, the image pattern matches at that index, with an alt no longer than `alt` |
| `MarkdownPatterns.ImageAtExact` | utils/image-url-replacer.ts:124 | when the alt has no `]` and the url has no `)`, the match is exactly that alt and url |
| `ImageUrlReplacer.UrlMapOfSpec` | utils/image-url-replacer.ts:36-41 | a key is in the map iff some file has that belongs-to key and a non-empty url; it then maps to the url of the last such file |
| `ImageUrlReplacer.BuildUrlMap` | utils/image-url-replacer.ts:36-41 | the `forEach` loop builds exactly `UrlMapOf(files)` |
| `ImageUrlReplacer.ByIdRewritesRegisteredIds` | utils/image-url-replacer.ts:47-53 | the callback rewrites a match iff some file registers its id, to `![alt](url)` with the last such file's url; otherwise it returns the match unchanged |
| `ImageUrlReplacer.ReplaceAllLeftmost` | utils/image-url-replacer.ts:45-54 | if the first match after `i` starts at `p`, the pass copies `s[i..p]`, puts the callback's value in place of the match and continues after it; the match count goes up by one |
| `ImageUrlReplacer.ReplaceAllNoMatch` | utils/image-url-replacer.ts:45-54 | text in which no match starts is copied unchanged, with no rewrites and no matches |
| `ImageUrlReplacer.ReplaceAllInert` | utils/image-url-replacer.ts:91 | a callback that returns every match unchanged leaves the text unchanged and rewrites nothing |
| `ImageUrlReplacer.ReplaceAllRewritesEveryMatch` | utils/image-url-replacer.ts:85-92 | with a non-empty candidate the callback rewrites every match: the rewrite count equals the number of matches |
| `ImageUrlReplacer.ReplaceImageUrlsInMarkdown` | utils/image-url-replacer.ts:27-55 | the result is the content unchanged when the content is empty or there are no files, and in every case the by-id pass over the content with `UrlMapOf(files)` |
| `ImageUrlReplacer.LazyIdDropsExtension` | utils/image-url-replacer.ts:46 | for `id.ext` with no `.` in `id`, the captured id is `id`, not `id.ext` |
| `ImageUrlReplacer.ReplaceByIdLooksUpBareId` | utils/image-url-replacer.ts:45-54 | `![alt](/files/tools/id.ext)` becomes `![alt](url)` iff the map has a non-empty url for `id`; otherwise it stays as it was |
| `ImageUrlReplacer.FirstBelongingUrl` | utils/image-url-replacer.ts:73 | the url of the first file with a belongs-to key, even when that url is empty; `""` when no file has a key |
| `ImageUrlReplacer.ReplaceImageUrlsInMarkdownAdvanced` | utils/image-url-replacer.ts:63-116 | with an empty candidate: the content unchanged, plus the fallback line with an empty url when there are files. Otherwise: the sandbox pass over the tool-link pass, with the fallback appended iff neither pass matched and there are files |
| `ImageUrlReplacer.KeepsPrecedingBang` | utils/image-url-replacer.ts:83-93 | the tool-link match starts at `[`, so `![x](/files/tools/…)` becomes `!![x](candidate)` |
| `ImageUrlReplacer.ImageMatchUrls` | utils/image-url-replacer.ts:124 | every url `matchAll` yields for the image pattern lies on one line and holds no `)` |
| `ImageUrlReplacer.ImageMatchesSkip` | utils/image-url-replacer.ts:125 | the match list from `i` equals the list from `p` when no match starts in between |
| `ImageUrlReplacer.FirstUploadUrl` | utils/image-url-replacer.ts:126-132 | `""` iff no url contains the upload marker; otherwise the url of the first match that contains it |
| `ImageUrlReplacer.ExtractedImageUrl` | utils/image-url-replacer.ts:123-133 | the result is `""` or a string that contains the upload marker and holds neither `)` nor a line terminator |
| `ImageUrlReplacer.ExtractFindsLoneUploadImage` | utils/image-url-replacer.ts:123-133 | a lone `![alt](url)` whose url contains the upload marker yields exactly that url |
| `ImageUrlReplacer.ExtractImageUrl` | utils/image-url-replacer.ts:126-132 | the `for…of` loop with its early return computes `ExtractedImageUrl(text)` |

## Left out

- `app/components/base/streamdown-markdown.tsx` is not part of this model. It is a React component that passes the markdown to a third-party renderer.
- The `console.log` calls (lines 67, 80, 113 and 127) are left out; they do not affect any result.
- `VisionFile` fields other than `belongs_to` and `url` are left out, as is the unused `FileInfo` interface; the rewriter reads neither.
- Content that is `null` or `undefined`, rather than a string, is not modelled. A `null` file list is modelled as the empty sequence.
- Strings are sequences of Unicode characters, not UTF-16 code units. A global pattern in the source steps over a surrogate pair one code unit at a time. The four patterns only look at ASCII delimiters, so this changes no match.
- The regular expressions are not interpreted in general. Only the four concrete patterns are modelled, each as a scanner.
- The fallback on line 108 depends only on `!matched` and a non-empty file list, not on the candidate. With an empty candidate it appends `\n![图片附件]()`. The model does the same.
- The comment on line 44 mentions a bare `![alt](related_id)` form. The regular expression on line 46 does not match it, and neither does the model.
