# CipherSweep in Dafny

A model of the analysis core of CipherSweep. CipherSweep runs nmap's
`ssl-enum-ciphers` script against hosts and reads the script's text report.
From that report it does the following:

- It pulls out every TLS cipher-suite name.
- It records whether TLS 1.0 and TLS 1.1 are offered.
- It sorts the names into strong, weak and unknown, using two token lists (`config.py`).
- It builds one coloured table row per host.
- When exporting to CSV, it strips the terminal colour sequences again.

The model is split into modules:

- `Text` holds the Python `str` operations the tool relies on, with Python's semantics:
  - `needle in hay`
  - `startswith`
  - `strip()`
  - `sep.join`
- `CipherRules` models `is_strong_cipher` and `is_weak_cipher`. The two token lists are an explicit `Rules` value.
- `Classifier` models `classify_ciphers`. `Select`, a plain filter, is its reference definition.
- `Extractor` models `extract_ciphers` and `extract_tls_versions`.
  - `re.findall` of `TLS_[A-Z_]+(?:_[A-Z0-9]+)+` is a dedicated scanner (`MatchAt`, `Scan`).
  - The scanner makes the choices of Python's backtracking matcher.
  - The pattern's declarative meaning is `PatternSpan`.
  - The lemmas show three things:
    - Each span the scanner reports matches the pattern.
    - Each span is the longest match at its start.
    - No match starts at a position outside the reported spans.
- `Ansi` models the colour constants, `format_tls_support`, and the removal of `\033\[[0-9;]*m` that `save_to_csv` applies.
- `Report` models:
  - `format_ciphers`;
  - `scan_host` from the point where nmap's text is known;
  - the collecting loop of `scan_from_file`;
  - the CSV cells of a row.

## Model

| member | source | states |
|---|---|---|
| Text.Contains | CipherSweep.py:36-37 | the left-to-right search answers true exactly when the needle occurs somewhere in the text |
| Text.Strip | CipherSweep.py:104 | `strip()` never lengthens its input, and what it returns is empty or neither starts nor ends with whitespace; `StripBounds` and `StripCutsSpace` place it in the input |
| Text.StripCutsSpace | CipherSweep.py:32 | `strip()` returns a slice of its input, and everything it cut off on either side is whitespace |
| Text.StripBounds | CipherSweep.py:104 | gives the slice bounds of `strip()`: the text before and after them is whitespace |
| Text.Join | CipherSweep.py:58 | `sep.join(parts)` of a non-empty list starts with the first part and is as long as all parts plus one separator between each two neighbours; `JoinAvoids` bounds its characters |
| Text.JoinAvoids | CipherSweep.py:58 | a character found in neither the separator nor any part does not occur in the joined text |
| CipherRules.IsStrongCipher | config.py:26-28 | a name is strong exactly when some strong-list token occurs in it or it starts with `TLS_AKE_` |
| CipherRules.IsWeakCipher | config.py:30-32 | a name is weak exactly when some weak-list token occurs in it |
| CipherRules.AnyOccurs | config.py:28 | `any(token in cipher ...)` holds exactly when some token of the list occurs in the name |
| CipherRules.StrongWhenTokenOccurs | config.py:26-28 | any strong-list token occurring in the name makes it strong |
| CipherRules.StrongForAkePrefix | config.py:28 | a name starting with `TLS_AKE_` is strong whatever the strong list holds |
| CipherRules.StrongWithEmptyList | config.py:9-11 | with the strong list loaded empty, exactly the `TLS_AKE_` names are strong |
| CipherRules.NothingWeakWithEmptyList | config.py:9-11 | with the weak list loaded empty, no name is weak |
| CipherRules.MoreTokensKeepVerdicts | config.py:26-32 | adding tokens to either list never withdraws a strong or a weak verdict |
| CipherRules.EmptyTokenMatchesAll | config.py:28 | an empty token in a list matches every name, as `"" in s` is always true |
| Classifier.VerdictOf | CipherSweep.py:46-52 | a name is strong exactly when the strong test holds; it is weak exactly when the strong test fails and the weak test holds; it is unknown when both fail |
| Classifier.Classify | CipherSweep.py:40-54 | each of the three lists the loop builds is the input filtered to that verdict, in input order |
| Classifier.SelectAppend | CipherSweep.py:46-52 | one more input name extends exactly the group of its verdict |
| Classifier.SelectCounts | CipherSweep.py:46-52 | each group holds every input name of its verdict, as often as the input does, and nothing else |
| Classifier.SelectIsSubsequence | CipherSweep.py:46-52 | each filtered group is a subsequence of the input |
| Classifier.ClassifyPartitions | CipherSweep.py:40-54 | the three groups together hold exactly the input as a multiset, duplicates included |
| Classifier.ClassifySizes | CipherSweep.py:40-54 | the group sizes add up to the input size |
| Classifier.ClassifyKeepsOrder | CipherSweep.py:46-52 | every group keeps the input order |
| Classifier.ClassifyPrecedence | CipherSweep.py:47-50 | strong names pass the strong test; weak names fail it and pass the weak test; unknown names fail both; a name passing both tests is only strong |
| Classifier.WeakTokenOnlyIsWeak | CipherSweep.py:47-50 | a name with a weak token, no strong token and no `TLS_AKE_` prefix lands in the weak group |
| Classifier.AkeIsStrong | CipherSweep.py:47-48 | a `TLS_AKE_` name lands in the strong group |
| Classifier.ClassifyWithNoRules | CipherSweep.py:40-54 | with neither list loaded (config.py:9-11), no name is weak, the `TLS_AKE_` names are strong and every other name is unknown |
| Extractor.HeadRunSpec | CipherSweep.py:30 | the greedy `[A-Z_]` run is all head characters and cannot be extended |
| Extractor.TailRunSpec | CipherSweep.py:30 | the greedy `[A-Z0-9]` run is all group characters and cannot be extended |
| Extractor.GroupsEndSpec | CipherSweep.py:30 | greedy repetition of `_[A-Z0-9]+` from a group start spans text matching `(?:_[A-Z0-9]+)+` |
| Extractor.LastGroupStartSpec | CipherSweep.py:30 | backtracking stops at the last possible group start: no later one exists, and none at all when the search fails |
| Extractor.MatchAt | CipherSweep.py:30 | a match found at a position covers at least `TLS_`, one head character and one group, and stays inside the text; `MatchAtSpec`, `MatchAtLongest` and `MatchAtBoundary` say which match it is |
| Extractor.MatchAtSpec | CipherSweep.py:30-31 | a match the scanner reports at a position matches the pattern there; when it reports none, no text matching the pattern starts there |
| Extractor.MatchAtLongest | CipherSweep.py:30-31 | the scanner's match is the longest text at its start that matches the pattern |
| Extractor.MatchAtBoundary | CipherSweep.py:30-31 | a match ending at the end of the text or before a non-`[A-Z0-9_]` character is exactly the one the scanner reports |
| Extractor.Scan | CipherSweep.py:31 | every span `findall` reports from a position on lies at or after it, inside the text; `ScanSpans`, `ScanOrdered`, `ScanIsLongest` and `ScanIsLeftmost` fix which spans they are |
| Extractor.ScanSpans | CipherSweep.py:31 | every span `findall` reports matches the pattern and lies at or after the scan start |
| Extractor.ScanOrdered | CipherSweep.py:31 | the reported spans are in text order and do not overlap |
| Extractor.ScanIsLongest | CipherSweep.py:31 | each reported span is the longest match at its start |
| Extractor.ScanIsLeftmost | CipherSweep.py:31 | no match starts at a position that no reported span covers |
| Extractor.ExtractTlsVersions | CipherSweep.py:34-38 | each flag is true exactly when its marker `TLSv1.0` or `TLSv1.1` occurs in the text |
| Extractor.PatternSpanSlice | CipherSweep.py:30 | a span of the text matches the pattern exactly when the sliced text matches it as a whole |
| Extractor.MatchShape | CipherSweep.py:30 | a whole match starts with `TLS_`, is made of `[A-Z0-9_]` only and holds at least two underscores |
| Extractor.MatchIsStripped | CipherSweep.py:32 | `strip()` leaves every match unchanged |
| Extractor.MatchesAreStripped | CipherSweep.py:32 | stripping a list of matches changes none of them |
| Extractor.FindAll | CipherSweep.py:31 | `findall` returns one text per scanned span, and each text matches the pattern as a whole |
| Extractor.ExtractCiphers | CipherSweep.py:28-32 | `strip()` changes none of the `findall` results, and every extracted name has the cipher-name shape (starts with `TLS_`, only `[A-Z0-9_]`, at least two underscores) |
| Extractor.ExtractedAreOccurrences | CipherSweep.py:28-32 | the extracted names are exactly the texts of the scanned spans, one per span, each matching the pattern |
| Extractor.NoCiphersIffNoMatch | CipherSweep.py:28-32 | no names are extracted exactly when no match of the pattern starts anywhere in the text |
| Extractor.NoPrefixNoCiphers | CipherSweep.py:28-32 | text without `TLS_` yields no names |
| Extractor.ScanSkips | CipherSweep.py:31 | positions where `TLS_` does not begin do not change what is found |
| Extractor.ScanAtName | CipherSweep.py:31 | a whole name followed by the end of the text or a space is reported as one span |
| Extractor.ScanJoined | CipherSweep.py:31 | scanning names joined by spaces reports exactly those names |
| Extractor.ExtractJoinedNames | CipherSweep.py:28-32 | round trip: names matching the pattern, joined by spaces, are extracted back in order with duplicates |
| Extractor.ExtractSingleName | CipherSweep.py:28-32 | the text `TLS_AES_128_GCM_SHA256` yields exactly that one name |
| Extractor.DigitInFirstWordMissed | CipherSweep.py:30 | `TLS_CHACHA20_POLY1305_SHA256` yields no name: the pattern needs a `_` before the first digit after the prefix |
| Extractor.NoMarkersNoFlags | CipherSweep.py:34-38 | text without either marker gives `(false, false)` |
| Ansi.FormatTlsSupport | CipherSweep.py:63-67 | the cell starts with red when the version is supported and with green otherwise, and ends with the reset; stripping the colour leaves "Yes" or "No" accordingly |
| Ansi.ParamRunEnd | CipherSweep.py:117 | `[0-9;]*` takes the whole parameter run, which cannot be extended |
| Ansi.EscapeAt | CipherSweep.py:117 | a colour sequence is found at the start of the text exactly when the text begins with ESC `[`, a run of `[0-9;]` and `m`; what is found is that whole sequence, the only one that can start there |
| Ansi.StripEscapes | CipherSweep.py:117 | removing colour sequences never lengthens a cell and leaves text without ESC unchanged |
| Ansi.StripEscFreePrefix | CipherSweep.py:117 | text without ESC passes through unchanged in front of whatever follows |
| Ansi.StripSgrPrefix | CipherSweep.py:117 | a complete colour sequence at the front is removed |
| Ansi.StripColoured | CipherSweep.py:56-61 | text without ESC, wrapped in a colour and a reset, comes back out unchanged |
| Report.FormatCiphers | CipherSweep.py:56-61 | with a colour, the cell starts with that colour and ends with the reset; without one (`None`) it is exactly the wrapped text. The cell is never shorter than the wrapped text. In red, in green or uncoloured, stripping the colour gives back the wrapped text when that text holds no ESC |
| Report.HostRow | CipherSweep.py:88-95 | the row carries the hostname as given; each version cell starts with red when the version is supported and with green otherwise, ends with the reset and strips to "Yes"/"No"; the weak cell starts with red and the strong cell with green, both ending with the reset; the unknown cell is the plain wrapped text; each cipher cell strips to its group joined by `, ` and wrapped, when that text holds no ESC |
| Report.ScanHost | CipherSweep.py:88-89 | a row, when there is one, carries the hostname it was asked for |
| Report.ScanHostSkips | CipherSweep.py:75-84 | a host gets no row exactly when nmap's text is empty or no cipher name matches in it |
| Report.ScanHostFlags | CipherSweep.py:80-91 | once stripped, the row's two version cells say "Yes" exactly for the markers present in nmap's text |
| Report.PresentAppend | CipherSweep.py:105-106 | a further result appends its row, if it has one |
| Report.PresentSpec | CipherSweep.py:105-106 | rows are kept exactly when present, at most one per line, and one per line only when every line produced one |
| Report.ScanFromFile | CipherSweep.py:97-108 | the loop returns exactly the rows the hosts produced, in host order, at most one per host line; a row is returned exactly when some line produced it |
| Report.AttemptsStep | CipherSweep.py:103-106 | after one more line, the kept rows extend by that line's row if it has one |
| Report.AttemptsKept | CipherSweep.py:105-108 | the kept rows are at most one per line and exactly those some line produced |
| Report.BatchRowsAreScannedHosts | CipherSweep.py:97-108 | with the rules and wrapping in force, every kept row comes from a host line whose stripped text is its hostname and whose nmap text is non-empty and names a cipher; every such line gives a kept row for that hostname |
| Report.OneFailingHostSkipped | CipherSweep.py:103-108 | three hosts whose middle one yields nothing give the other two rows, in order |
| Report.PresentGap | CipherSweep.py:105-106 | a missing result between two rows is dropped |
| Report.CsvCells | CipherSweep.py:112-118 | one cell per CSV header; removing colour never lengthens a cell, and a cell without ESC is written as it is |
| Report.CiphersEscFree | CipherSweep.py:28-32 | no extracted cipher name contains ESC |
| Report.GroupTextEscFree | CipherSweep.py:92-94 | a group of extracted names, joined by `, ` and wrapped, contains no ESC when wrapping adds none |
| Report.GroupMembers | CipherSweep.py:46-52 | every member of a group is one of the classified names |
| Report.CsvHostnameCell | CipherSweep.py:116-117 | the CSV cell of a hostname without ESC is the hostname |
| Report.CsvFlagCells | CipherSweep.py:116-117 | the CSV version cells are "Yes"/"No" for the two flags |
| Report.CsvGroupCells | CipherSweep.py:116-117 | each CSV cipher cell is the group's wrapped text without its colour, when that text has no ESC |
| Report.CsvCellsOfScan | CipherSweep.py:88-95 | a scanned host's CSV row holds: the hostname (when it has no ESC); "Yes"/"No" per marker of nmap's text; and each group's wrapped text as it was before colouring |
| Report.GroupsEscFree | CipherSweep.py:92-94 | the wrapped text of each of the three groups holds no ESC when wrapping adds none |

## Left out

- `run_nmap_scan` (CipherSweep.py:13-26) runs a subprocess. Its text is an input to `Report.ScanHost`. The empty string it returns on a failed run is covered, because `scan_host` treats it like an empty report.
- `load_cipher_list` and the JSON files (config.py:4-16) do file I/O. The lists are the `Rules` parameter. A missing or malformed file loads as the empty list, the case `StrongWithEmptyList`, `NothingWeakWithEmptyList` and `ClassifyWithNoRules` cover. `get_strong_ciphers` and `get_weak_ciphers` only return those lists.
- `textwrap.wrap` is a library call. It is the parameter `wrap`. Where a property needs it, the requirement is stated explicitly: `KeepsEscFree`, meaning wrapping adds no escape character.
- The following are terminal and file output, and are not modelled:
  - `tabulate`;
  - the `csv` module's writing (quoting);
  - `argparse`;
  - the banner;
  - every `print`.
- `save_to_csv` is modelled as what it writes into each cell (`CsvCells`), not as a file.
- `scan_from_file` reads the file and calls `splitlines()`; that reading is left out. The loop takes the host lines together with nmap's text for each host (`HostScan`).
- The loop is written over any line scanner (`LineScanner`). `ScannerOf` builds the one CipherSweep uses from the rules and `wrap`, and `BatchRowsAreScannedHosts` states the loop for that scanner.
- The `port` argument only reaches nmap, so it is left out.
- `re` as a general engine is not modelled. Only the two patterns the tool uses are modelled, each as a dedicated scanner.
- `format_ciphers` takes `color=None`. The model uses the empty string for it, which is equally false in `if color:`.
- Report.CsvHostnameCell: requires a hostname without ESC. A hostname containing a colour sequence would have it removed too.
- Report.CsvCellsOfScan: the cipher columns are stated only for a `wrap` that adds no escape character. `textwrap.wrap` itself is not modelled.
