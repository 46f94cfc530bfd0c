# Scribd to PDF — link normaliser, file name and scroll progress

This project models the pure logic of the Scribd-to-PDF Streamlit app
(`main.py`) in Dafny and proves properties of it:

- **Link normaliser** `convert_scribd_link`: looks for the first occurrence of
  `https://www.scribd.com/document/<digits>/` anywhere in the input
  (`re.search`, unanchored, leftmost) and returns
  `https://www.scribd.com/embeds/<digits>/content`, or `None`.
- **Download file name**: the id is searched again in the embed URL with
  `embeds/(\d+)/` and the file is named `scribd_doc_<id>.pdf`.
- **Scroll progress**: after scrolling element `index` of `total` page
  elements into view, the progress bar is set to
  `min((index + 1) / total, 1.0)`.
- **Convert handler**: the flow behind the "Convert to PDF" button, from the
  pasted URL to the invalid-URL toast, a failed conversion, or the download.

Both regular expressions have the shape `LIT(\d+)/`, so one generic searcher
(`DigitCapture`) models Python's `re.search` for them. Its reference semantics
is the ghost predicate `MatchAt(lit, s, i, id)` ("the pattern matches at `i`
with group 1 `id`") and `LeftmostMatch`, the match that `re.search` reports.
The executable `Search` tries the start positions from left to right. A
greedy `\d+` followed by `/` can only succeed on the maximal digit run after
the literal, so the capture at each start position is unique
(`CaptureIsMaximalRun`).

Modules and files:

| file | module | models |
|---|---|---|
| `wrappers.dfy` | `Wrappers` | `Option`, standing for Python's `None` |
| `digit_capture.dfy` | `DigitCapture` | `re.search(LIT + r'(\d+)/', s)` and `.group(1)` |
| `scribd_link.dfy` | `ScribdLink` | `convert_scribd_link` and the file name derivation |
| `scroll_progress.dfy` | `ScrollProgress` | the scroll loop and its progress values |
| `submission.dfy` | `Submission` | the convert-button handler around them |

Facts about main.py that the model keeps:

- The host is hard-coded as `www.scribd.com` (main.py:59).
- A URL without a link gives `None` and a toast (main.py:63, 208), not an
  error value.
- The progress values are strictly increasing (main.py:104-108), not merely
  non-decreasing.
- The in-browser cleanup script is not idempotent: every run appends another
  `<style>` element (main.py:148). It is not modelled (see below).
- `generate_pdf` calls `setup_driver` before its `try` (main.py:86-90), and
  `driver.quit()` runs in `finally` (main.py:166). An exception from either
  escapes and ends the button handler; `OnConvert` has an outcome for it.

## Model

| member | source | states |
|---|---|---|
| DigitCapture.DigitRun | main.py:59 | the run of `\d` characters starting at a position is all digits and maximal: it ends at the end of the string or at a non-digit |
| DigitCapture.MatchShape | main.py:59 | a match at `i` means the literal sits at `i`, the captured digits follow it, and a `/` follows them |
| DigitCapture.CaptureIsMaximalRun | main.py:59 | a match at a position captures exactly the maximal digit run after the literal (backtracking of `\d+` cannot end before a `/`) |
| DigitCapture.CaptureUnique | main.py:59 | at one start position the pattern captures at most one id |
| DigitCapture.MatchAtPosition | main.py:59 | trying the pattern at one position yields a capture exactly when it matches there, and every capture it yields is a real match |
| DigitCapture.SearchFrom | main.py:59 | scanning start positions from `i` on returns the first matching position and its capture, or `None` when no position from `i` on matches |
| DigitCapture.Search | main.py:59 | (the same searcher also serves main.py:193) `re.search` returns the leftmost match, and `None` exactly when the pattern occurs nowhere in the string |
| DigitCapture.SearchFindsLeftmost | main.py:59 | (also for the search at main.py:193) conversely, whatever match is leftmost is exactly the one the search returns |
| DigitCapture.EarlierMatchStaysInside | main.py:59 | for a literal whose first character neither recurs nor is a digit, a match starting before a match inside `s` cannot run past the end of `s` |
| DigitCapture.SearchIgnoresTrailingText | main.py:59 | for such a literal, appending text after a string that already matches leaves the search result unchanged |
| ScribdLink.ConvertScribdLink | main.py:58-63 | the result is `None` exactly when the input holds no document link; otherwise it is the embed prefix, a non-empty all-digit id and `/content`, built from the id of the leftmost link |
| ScribdLink.DownloadFileName | main.py:193-194 | the file name exists exactly when `embeds/(\d+)/` occurs in the URL, and is `scribd_doc_` + the leftmost captured id + `.pdf` |
| ScribdLink.EmbedUrlInjective | main.py:61-62 | two embed URLs are equal exactly when their ids are equal |
| ScribdLink.ConvertTakesLeftmost | main.py:59-62 | when several document links occur, the id of the earliest one is used |
| ScribdLink.ConvertDependsOnlyOnId | main.py:61-62 | two inputs normalise to the same embed URL exactly when their leftmost links capture the same id, whatever the slug or other text |
| ScribdLink.DocumentPatternUnbordered | main.py:59 | the document literal starts with a non-digit that does not recur in it, so its occurrences cannot overlap |
| ScribdLink.ConvertSkipsLeadingText | main.py:59-62 | text before a link is skipped when no link can start in it (it contains no `h`), and the link's id is used |
| ScribdLink.ConvertIgnoresTrailingText | main.py:59-62 | text appended after an input that already holds a link never changes the result |
| ScribdLink.EmbedIdRoundTrip | main.py:193 | searching `embeds/(\d+)/` in the embed URL of an id finds it right after the host and recovers exactly that id |
| ScribdLink.FileNameRoundTrip | main.py:179-194 | on every normalised URL the file-name search succeeds (`.group(1)` cannot fail) and names the file after the id captured from the user's URL |
| ScribdLink.ConvertOfLink | main.py:59-62 | a URL made of a document link with id `id` and any slug normalises to the embed URL of `id` |
| ScribdLink.ConvertExample | main.py:58-63 | `https://www.scribd.com/document/42/abc` normalises to `https://www.scribd.com/embeds/42/content` |
| ScribdLink.EndToEndConvertExample | main.py:58-63 | `https://www.scribd.com/document/99887766/Sample` normalises to `https://www.scribd.com/embeds/99887766/content` |
| ScribdLink.EndToEndFileNameExample | main.py:193-194 | the file name for `https://www.scribd.com/embeds/99887766/content` is `scribd_doc_99887766.pdf` |
| ScribdLink.ConvertNoneIff | main.py:59-63 | the result is `None` exactly when every occurrence of the document literal is followed by no digit, or by digits not closed by `/` |
| ScribdLink.ConvertNeedsDocumentLiteral | main.py:59-63 | an input without the document literal gives `None` |
| ScribdLink.ConvertRejectsMissingSlash | main.py:59-63 | `https://www.scribd.com/document/42`, whose digits are not followed by `/`, gives `None` |
| ScrollProgress.ClampNeverBinds | main.py:107-108 | for every element index the `min(..., 1.0)` leaves `(index + 1) / total` unchanged, and that value lies in (0, 1] |
| ScrollProgress.FractionsBounded | main.py:102-108 | there is one progress value per element and each lies in (0, 1] |
| ScrollProgress.FractionsIncreasing | main.py:104-108 | the progress values increase strictly from one element to the next |
| ScrollProgress.FractionsEnd | main.py:102-108 | the last progress value is exactly 1, and with no elements no value is reported |
| ScrollProgress.ScrollPages | main.py:98-108 | every element is scrolled into view once, in document order; the reported values are exactly `1/total, ..., total/total`, lie in (0, 1], increase strictly, end at 1, and are absent when there are no elements |
| Submission.OnConvert | main.py:175-210 | empty input shows only the hint; input without a link gives the invalid-URL toast; otherwise the embed URL is rendered; an exception escaping the render ends the handler exactly when the render raises; a missing or empty PDF offers no download; a download carries the PDF and `scribd_doc_<id>.pdf` for the id of the pasted URL; the file-name crash never happens |

## Left out

- Python's `\d` also matches non-ASCII Unicode decimal digits. The model accepts only ASCII `'0'..'9'`.
- The Streamlit UI is presentation only: page config, CSS, sidebar, status container, balloons, columns and the download widget (main.py:1-55, 168-210). `OnConvert` keeps only the branches that decide what the user gets.
- `setup_driver` (main.py:65-83) is not modelled. It probes the filesystem and installs a driver. In `OnConvert` a missing driver is one way for the render parameter to return `None`, and an exception from installing or starting the driver is one way for it to raise.
- Navigation and the fixed sleeps are wall-clock pacing against a live browser (main.py:93-94, 106, 110). The `find_elements` query `[class*='page']` is answered by the browser, so `ScrollPages` takes the found elements as input.
- The DOM cleanup script (main.py:114-150) is JavaScript run inside the browser. It is not idempotent, because each run appends another `<style>` element, and no idempotence is claimed.
- The `Page.printToPDF` protocol call and `base64.b64decode` (main.py:154-160) are foreign calls. `generate_pdf` as a whole is the render parameter of `OnConvert`.
- Exception handling and `driver.quit()` in `finally` (main.py:162-166) are resource plumbing. When `setup_driver` returns `None` (main.py:87), `generate_pdf` returns before the `try`, so nothing is quit on that path.
- The progress bar's initial `progress(0)` call and the status messages are display only. Progress fractions are exact reals, not IEEE doubles.
