# prntsc-scraper, modelled in Dafny

A model of the two small Python scripts of prntsc-scraper and the four
decision rules inside them:

- **scraper.py** guesses six-character screenshot ids over `a-z0-9`,
  fetches the page `https://prnt.sc/<id>`, and takes the `src` of its
  screenshot `img` tag as a find. A page answered with a status other than
  200, a missing or empty `src`, and the service's placeholder address
  (`//st.prntscr.com...`) all mean "not found". `main` makes `num_links`
  probes and counts the finds.
- **ocr_search.py** walks a folder listing and keeps the regular files
  whose lowered name ends in `.png`, `.jpg` or `.jpeg`. For each one it asks
  OCR for the text and keeps `(name, text)` when the lowered word is a
  substring of the lowered text. A failed recognition counts as
  `(False, "")`.

Modules:

- `Wrappers` (Wrappers.dfy): `Option`.
- `Strings` (Strings.dfy): ASCII `lower`, `startswith`, `endswith`, and
  the substring test. `IsSubstring` is the reference meaning ("occurs at
  some offset"). `Contains` is a search proved equal to it.
- `Scraper` (Scraper.dfy): `generate_id`, `fetch_prntsc_image`, `main`.
- `OcrSearch` (OcrSearch.dfy): `contains_word`, `scan_folder_for_word`.

The outside world comes in as parameters:

- The indices that `random.choices` draws come in as a `Draw`: six indices
  into the 36-character population. The k-th probe of `main` uses
  `rng(k)`.
- The HTTP GET plus the BeautifulSoup lookup of
  `img.no-click.screenshot-image` come in as `server: string -> Response`.
  A `Response` is the status code and the tag's `src` as an `Option`: None
  when there is no such tag or the tag has no `src`. A BeautifulSoup tag is
  always truthy, so `img and img.get('src')` means "found and non-empty".
- pytesseract over PIL comes in as `ocr: string -> Option<string>`. None
  stands for any exception raised while opening or recognising the file.
- `os.listdir` together with `os.path.isfile` come in as a sequence of
  `Entry(name, isFile)`.

`main` is modelled as the method `Probe`. It returns the count and, in
place of the printed lines, the log of `(id, url)` records.

## Model

| member | source | states |
|---|---|---|
| `Strings.LowerIsLower` | ocr_search.py:9 | ASCII lowering leaves no upper-case letter, and lowering twice is the same as lowering once |
| `Strings.StartsWithIffPrefix` | scraper.py:17 | `s.startswith(p)` holds exactly when `s == p + t` for some `t` |
| `Strings.EndsWithIffSuffix` | ocr_search.py:18 | `s.endswith(p)` holds exactly when `s == t + p` for some `t` |
| `Strings.Contains` | ocr_search.py:9 | the left-to-right search answers true exactly when `p` occurs at some offset of `s` (Python's `p in s`) |
| `Strings.EmptyIsSubstring` | ocr_search.py:9 | the empty string is found in every string, as `"" in s` is in Python |
| `Scraper.CharRange` | scraper.py:7 | the building block of `ascii_lowercase` and `digits`: `n` characters with consecutive codes |
| `Scraper.AlphabetIsPython` | scraper.py:7 | the population is exactly `"abcdefghijklmnopqrstuvwxyz0123456789"` |
| `Scraper.AlphabetAt` | scraper.py:7 | population position `k` holds letter `k` for `k < 26` and digit `k - 26` otherwise; every population character is a lower-case letter or a digit |
| `Scraper.GenerateId` | scraper.py:6-7 | a generated id has length exactly 6, and every character is a lower-case ASCII letter or a digit |
| `Scraper.IndexOf` | scraper.py:7 | every lower-case letter or digit sits at some population index |
| `Scraper.GenerateIdOnto` | scraper.py:7 | every 6-character string over `a-z0-9` is produced by some draw |
| `Scraper.GenerateIdInjective` | scraper.py:7 | different draws give different ids, because the population has no repeated character |
| `Scraper.PageUrl` | scraper.py:10 | the probed URL starts with `https://prnt.sc/`, and the rest of it is the id |
| `Scraper.PageUrlInjective` | scraper.py:10 | different ids are probed at different URLs |
| `Scraper.FetchImage` | scraper.py:9-19 | a non-200 page gives None; a returned URL is the page's own `src`, is non-empty and never starts with `//st.prntscr.com`; every 200 page with a non-empty, non-placeholder `src` returns it |
| `Scraper.FetchImageReadsOnlyItsPage` | scraper.py:10-12 | the answer depends only on the response for `https://prnt.sc/<id>` |
| `Scraper.PlaceholderIsNotFound` | scraper.py:17-19 | a page whose `src` is the placeholder address plus anything is "not found" |
| `Scraper.Hits` | scraper.py:26-28 | the find count is at most the number of probes; it equals it exactly when every probe found an image, and is 0 exactly when none did |
| `Scraper.Iterations` | scraper.py:23 | `range(n)` runs `n` times for `n >= 0` and never for negative `n` |
| `Scraper.Probe` | scraper.py:21-31 | `main` makes exactly `num_links` probes and the k-th probes the id of the k-th draw; `found` equals the number of probes that returned a URL, so `0 <= found <= num_links` |
| `OcrSearch.ContainsWord` | ocr_search.py:6-12 | on an OCR failure the answer is `(false, "")`; otherwise the text is the OCR output unchanged, and the flag is true exactly when `lower(word)` is a substring of `lower(text)` |
| `OcrSearch.ContainsWordIgnoresWordCase` | ocr_search.py:9 | two words equal up to ASCII case give the same answer |
| `OcrSearch.ContainsWordOfLowered` | ocr_search.py:9 | searching for the lowered word gives the same answer as searching for the word |
| `OcrSearch.EmptyWordMatchesReadable` | ocr_search.py:8-9 | the empty word matches every file whose text OCR can read |
| `OcrSearch.HelloWorldExample` | ocr_search.py:8-9 | recognised text "Hello World" matches "world" and does not match "xyz" |
| `OcrSearch.MatchesAreOrderedHits` | ocr_search.py:16-24 | each match comes from a listing entry that is a regular file with an image extension; its text is that file's OCR output and contains the word; the entries' positions strictly increase, so the matches keep listing order |
| `OcrSearch.MatchesSound` | ocr_search.py:18-22 | every `(name, text)` in the result has an image extension, `text` is the OCR text of `name`, and `text` contains the word ignoring case |
| `OcrSearch.MatchesComplete` | ocr_search.py:16-22 | every regular image file whose OCR text contains the word appears in the result with that text |
| `OcrSearch.MatchesLength` | ocr_search.py:16-24 | there are never more matches than listing entries |
| `OcrSearch.ScanFolderForWord` | ocr_search.py:14-24 | the loop returns exactly the listing-order filter `Matches` of the entries whose search hits |

## Left out

- HTTP (`requests.get`, the User-Agent header) is not modelled; `server` stands for it. A `requests` exception (DNS failure, timeout) escapes `fetch_prntsc_image` and ends `main`. The model has no such path.
- `server` is a function of the URL. A real service may answer the same URL differently on two probes. The model assumes it answers the same way during one run.
- BeautifulSoup HTML parsing is a foreign library. Only the `src` it finds enters the model.
- `random.choices` randomness is not modelled: `rng` supplies the drawn indices. Uniformity and the seed are not modelled. Onto and injective are proved instead: every id can be drawn, by exactly one draw.
- pytesseract and PIL are not modelled; `ocr` stands for them. `ocr` is keyed by the listed name rather than by `os.path.join(folder, fname)`, since the folder is fixed during one scan.
- `os.listdir`, `os.path.isfile` and `os.path.join` are filesystem I/O. They enter as the `Entry` sequence.
- Printing (the per-probe lines, the totals, OCR error messages) is left out. `Probe` returns the probe log in place of the per-probe lines.
- The `sys.argv` / `sys.exit` command line of both scripts and the `main(10)` entry point are left out.
- Unicode: Python's `str.lower()` folds case for all of Unicode. The model lowers only ASCII `A-Z`.
