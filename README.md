# ScrapeContraryOS in Dafny

ScrapeContraryOS is made of two scripts.

- `scrape.py` requests the profile pages
  `https://os.contrary.com/dashboard/profile/0 .. max_number - 1` with a
  cookie and counts the requests that succeed. When a `save_to` folder is
  given, it also archives each successful page under a file name derived
  from its URL.
- `extract.py` reads a folder of saved `.html` pages. From each one it pulls
  the JSON payload embedded in the
  `<script id="__NEXT_DATA__" type="application/json">` element, and writes
  that payload, pretty-printed, to `<stem>.json` in an output folder.

The model has three modules.

- `Text` holds the Python string built-ins the scripts rely on, stated on
  `seq<char>`:
  - literal substring search (`IndexOf`);
  - `str.replace` (`Replace`);
  - `str(n)` for `n >= 0` (`Decimal`, whose inverse is `DecimalValue`).
- `Extract` models `extract.py`:
  - `extract_json_data` is a pure function;
  - the `.html` selection made in `main` is a function on a list of
    directory entries;
  - `process_html_files` is a method with a loop. It is proved equal to the
    specification function `ProcessAll`, which is `ProcessPages` applied to
    the pages (`Pages`) that the files yield.
- `Scrape` models `scrape.py`:
  - the URL and the file-name chain are functions;
  - `send_requests` is a method with a loop, proved against the functions
    `SuccessCount`, `Archive` and `FailureLines`.

The environment is passed in as parameters.

- A directory is a list of `HtmlFile(name, content)` entries.
- A folder is a `map` from file name to text.
- The HTTP server is a sequence holding one `Response` per index.
- `json.dump(json.loads(s), indent=4)` is an opaque function
  `dump: string -> Option<string>`. It gives `None` when `json.loads`
  raises.
- Printed lines are a sequence of strings. The extractor keeps the name of
  each page it warns about.

## Model

| member | source | states |
|---|---|---|
| Text.IndexOf | extract.py:11-15 | a found index is the leftmost occurrence of the literal at or after the start position; when it finds none, there is none |
| Text.Replace | scrape.py:43-45 | `str.replace`: the result contains only characters of the input or of the replacement, and a one-character pattern absent from the replacement is gone from the result |
| Text.ReplaceForeignTail | scrape.py:43-45 | a tail free of the pattern's characters passes through `str.replace` unchanged, and no occurrence straddles the boundary |
| Text.ReplaceCharConcat | scrape.py:43-44 | replacing a one-character pattern distributes over concatenation |
| Text.Decimal | scrape.py:35 | `str(n)` is non-empty, made only of digits, and has no leading zero |
| Text.DecimalRoundTrip | scrape.py:35 | reading back the digits of `str(n)` gives `n` |
| Text.DecimalInjective | scrape.py:35 | distinct numbers print differently |
| Extract.BetweenSpec | extract.py:11-17 | a capture exists iff some open tag is followed by a close tag; the capture starts after the first open tag, and no close tag starts inside it; no open tag means None |
| Extract.ExtractJsonDataSpec | extract.py:9-18 | the same three facts for the `__NEXT_DATA__` open tag and `</script>` |
| Extract.BetweenDelimited | extract.py:11-17 | for any delimiters whose last character is unique, a text laid out as pre, open, body, close, post (no open in pre, no close in body) yields exactly the body |
| Extract.Between | extract.py:11-17 | the literal delimiter search: first `open`, then first `close` after it; its properties are `BetweenSpec`, `BetweenDelimited` and `ExtractIsLeftmostLazyMatch` |
| Extract.ExtractJsonData | extract.py:9-18 | `extract_json_data` as `Between` on the fixed tags; its properties are `ExtractJsonDataSpec`, `ExtractionExcludesCloseTag`, `ExtractDelimited`, `ExtractMultiline` and `ExtractIsLeftmostLazyMatch` |
| Extract.CaptureExcludesCloseTag | extract.py:12 | the non-greedy capture never contains `</script>` |
| Extract.ExtractionExcludesCloseTag | extract.py:9-18 | a value returned by `extract_json_data` never contains `</script>` |
| Extract.ExtractIsLeftmostLazyMatch | extract.py:11-17 | the two-step literal search equals the engine's order: the leftmost start with a match, then the shortest capture |
| Extract.ExtractDelimited | extract.py:11-17 | a page laid out as pre, open tag, body, close tag, post (no open tag in pre, no close tag in body) yields exactly the body, with every character kept |
| Extract.ExtractMultiline | extract.py:14 | example: with DOTALL, one concrete payload spanning newlines comes back whole (the general fact is `ExtractDelimited`) |
| Extract.LastIndexOf | extract.py:29 | finds the last occurrence of a character, or -1 when there is none |
| Extract.Suffix | extract.py:45 | `Path.suffix` is empty, or a dot followed by at least one non-dot character, and is shorter than the name |
| Extract.Stem | extract.py:29 | `Path.stem` followed by `Path.suffix` gives back the name |
| Extract.SuffixOfDotted | extract.py:29 | `base.ext` has suffix `.ext` and stem `base` |
| Extract.JsonNameOfHtml | extract.py:29 | the output name of an `.html` file is its name with `.html` replaced by `.json` |
| Extract.JsonName | extract.py:29 | `html_file.stem + ".json"`; its value for `.html` names is `JsonNameOfHtml` |
| Extract.SelectHtml | extract.py:45 | the selection keeps exactly the entries whose suffix is `.html` |
| Extract.SelectHtmlAppend | extract.py:45 | the selection distributes over concatenation, so it keeps the listing's order |
| Extract.Truthy | extract.py:28 | the truth value of `json_data`: None and the empty capture are false; see `EmptyCaptureWarns` and `StepExactlyOne` |
| Extract.Step | extract.py:27-35 | one iteration of the loop; its outcomes are `StepExactlyOne`, and `WriteOrWarn` implements it |
| Extract.ProcessPages | extract.py:23-35 | the state after the loop over the pages in order; see `ProcessPagesCompletes`, `ProcessPagesKeys`, `ProcessPagesKeepsOthers`, `ProcessPagesLastWriteWins`, `ProcessPagesAborts` and `AbortedIsFinal` |
| Extract.ProcessAll | extract.py:23-35 | `ProcessPages` over the pages of the files; `ProcessHtmlFiles` and `RunExtractor` are proved equal to it |
| Extract.StepExactlyOne | extract.py:27-35 | each file has exactly one outcome: its JSON is written under `stem + ".json"` with the pretty-printed payload, or a warning names it and the folder is unchanged, or its payload fails to parse and the run stops with that output file emptied |
| Extract.EmptyCaptureWarns | extract.py:28 | any page whose first tag pair encloses nothing (no open tag before it) is treated as one without data: a warning, and no output |
| Extract.WriteOrWarn | extract.py:28-35 | one loop body, imperatively: opens the output file before parsing, and leaves the state that `Step` describes |
| Extract.ProcessHtmlFiles | extract.py:21-35 | the loop leaves the state given by `ProcessAll` over the files in order, and stops at the first failed parse |
| Extract.AbortedIsFinal | extract.py:31 | after a failed parse, later files change nothing |
| Extract.ProcessPagesCompletes | extract.py:21-35 | when every payload parses, the run finishes, and warns about exactly the pages without data, in order |
| Extract.ProcessPagesKeys | extract.py:28-31 | when every payload parses, the output folder gains exactly the `.json` names of the pages with data |
| Extract.ProcessPagesKeepsOthers | extract.py:29-31 | a name no page writes keeps its previous contents |
| Extract.ProcessPagesLastWriteWins | extract.py:29-31 | when every payload up to and including page `i` parses and no later page with data maps to page `i`'s name, that output file holds page `i`'s pretty-printed payload, even if a later page fails to parse |
| Extract.ProcessPagesAborts | extract.py:30-31 | a payload that fails to parse ends the run at that page: earlier pages' warnings are kept and its output file is left empty |
| Extract.ExtractorExample | extract.py:43-47 | one page with data, one without and a `.txt` file give one `page_0.json` and one warning, for `page_1.html` |
| Extract.RunExtractor | extract.py:43-47 | `main` processes exactly the selected `.html` entries |
| Scrape.UrlAsName | scrape.py:43-45 | the file name contains no `/` and no `.` |
| Scrape.RequestUrl | scrape.py:35 | `f"{base_url}{number}"`; see `UrlAsNameOfRequestUrl` and `SendRequests` |
| Scrape.UrlAsNameOfBase | scrape.py:32-45 | the chain turns the base URL into `__os_contrary_com_dashboard_profile_` |
| Scrape.UrlAsNameDigitTail | scrape.py:43-45 | digits appended to a URL pass through every step of the chain |
| Scrape.UrlAsNameOfRequestUrl | scrape.py:35-45 | the file name for index `n` is `__os_contrary_com_dashboard_profile_` followed by `str(n)` |
| Scrape.UrlAsNameInjective | scrape.py:35-45 | distinct indices give distinct file names |
| Scrape.ArchivePathInjective | scrape.py:46 | distinct indices give distinct archive paths `save_to/name.html` |
| Scrape.ArchivePath | scrape.py:46 | `f"{save_to}/{url_as_name}.html"` for index `n`; see `ArchivePathInjective` |
| Scrape.RangeLength | scrape.py:34 | the length of `range(max_number)`, zero when `max_number <= 0`; see `SendRequests` |
| Scrape.SuccessCount | scrape.py:33-41 | the count never exceeds the number of requests |
| Scrape.SuccessCountAppend | scrape.py:38-49 | the count splits over consecutive runs of responses, so a failure adds nothing and does not end the count |
| Scrape.FailureLines | scrape.py:48-49 | one failure line per request that did not succeed |
| Scrape.Summary | scrape.py:53 | the closing line `Found {got_count} valid URLs in total!`; see `SendRequests` and `FetchExample` |
| Scrape.ArchiveWithoutSaveTo | scrape.py:42 | with no `save_to`, nothing is written |
| Scrape.Archive | scrape.py:42-47 | the folder after the loop; see `ArchiveWithoutSaveTo`, `ArchiveKeys`, `ArchiveHolds`, `ArchiveKeepsOthers` and `ArchivedPathsCount` |
| Scrape.PathNotYetArchived | scrape.py:46 | a later index never writes an earlier index's path |
| Scrape.ArchiveKeys | scrape.py:42-47 | with `save_to`, the folder gains exactly the archive paths of the successful indices |
| Scrape.ArchiveHolds | scrape.py:46-47 | each successful index's file holds that response's text |
| Scrape.ArchiveKeepsOthers | scrape.py:42-47 | every other file keeps its contents |
| Scrape.ArchivedPathsCount | scrape.py:41-47 | exactly one file is written per successful request |
| Scrape.SendRequests | scrape.py:30-53 | index `n` requests `base_url + str(n)` with the cookie, for every `n` in `range(max_number)` in order; afterwards `got_count` is the number of successes and lies between 0 and `max(max_number, 0)`; the folder is `Archive`; the output is the failure lines followed by the summary |
| Scrape.FetchExample | scrape.py:33-53 | three requests with the middle one refused count two, write two files, and print `Found 2 valid URLs in total!` |

## Left out

- HTTP (scrape.py:39-40): the `requests` client and `raise_for_status` become a given sequence of `Response` values. The model does not decide which status codes count as success.
- The text of a `RequestException` is passed in as the failure reason.
- JSON (extract.py:31): `json.loads` and `json.dump` are an opaque parameter, so the JSON grammar and the pretty-printing are not modelled. A parse failure is an uncaught exception in the script. The model records it as an aborted run that leaves the just-opened output file empty.
- General regular expressions: only the fixed pattern of extract.py:12 is modelled, reduced to a literal delimiter search. `ExtractIsLeftmostLazyMatch` relates that search to the engine's leftmost, shortest order.
- Filesystem effects:
  - reading files is left out, since each entry arrives with its text;
  - `iterdir` order is left out, since the listing arrives as a sequence in some order;
  - `mkdir` is a no-op on the map, and `open` failures are not modelled;
  - a write to an archive path that is missing its folder would raise in the script, but in the model it always succeeds.
- The warning text (extract.py:33-35): the model keeps the file's name, not the `expanduser().resolve()` absolute path or the printed message.
- The `click` options and argument validation, such as the input folder existing and the default of 1000 for `max_number`. Also the `tqdm` progress bars.
- Extract.Suffix: it follows the classic `pathlib` rule. The suffix is taken from the last dot, unless that dot is the first or the last character of the name. Later Python versions handle names ending in a dot differently. Path separators inside a name are not modelled, since names are single path components.
- Text.Replace: it requires a non-empty pattern. The empty-pattern case of `str.replace` never arises here, because every pattern in the scripts is non-empty.
- The "27*14 + 12 = 390 valid URLs" comment (scrape.py:51-52) is informal and states no invariant of the code.
