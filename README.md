# GreenCheck document analysis, modelled in Dafny

GreenCheck's backend takes an uploaded report (PDF, DOCX or plain text) and
scores its ESG readiness. It also guesses the company's name, flags
suspicious names and extracts the company's CNPJ (Brazilian tax-registration
number). The CNPJ then feeds lookups in public registries. This project
models the pure text logic of the `/analyze` endpoint in `main.py`:

- `calcular_score`: ten points for each of fifteen Portuguese keywords found
  in the lower-cased text, capped at 100.
- `extract_cnpj`: the first match of `\d{2}\.\d{3}\.\d{3}/\d{4}-\d{2}`.
- The company-name line heuristic: the first line mentioning "empresa", or
  "Empresa Auditada". The reported name is stripped.
- `validar_empresa_publica`: a deny-list of "fake" and "jurandir".
- The filename-suffix dispatch (`.pdf`, `.docx`, `.txt`, otherwise an error).
- The assembly of the result dictionary.

Modules, one file each:

- `Strings` (`strings.dfy`): the Python string built-ins these functions use.
  It covers `str.lower`, `in`, `endswith`, `strip`, `splitlines` and `join`.
- `Score` (`score.dfy`): `calcular_score`.
- `Cnpj` (`cnpj.dfy`): `extract_cnpj`.
- `Entity` (`entity.dfy`): the name heuristic and `validar_empresa_publica`.
- `Analysis` (`analysis.dfy`): format dispatch, text assembly per format, and
  the report.
- `Scenario` (`scenario.dfy`): a worked upload checked end to end.

Everything in this core is an expression over built-ins. The Python uses
`sum` over a generator, one `re.search`, `next` over a generator, and
substring tests. So the model is pure functions and lemmas, with no classes
and no loops.

The result dictionary's keys map to the fields of `Analysis.Report`:

- `empresa` → `company`
- `score` → `score`
- `validacao_publica` → `publiclyPlausible`
- `texto` → `text`
- `cnpj` → `cnpj`
- `orgaos_publicos` → `registry`

## Behaviour worth noting

- There is no "empty content" error. An empty `.txt` is analysed: it scores
  0, has no CNPJ and is named "Empresa Auditada".
- Parse failures are not told apart as corrupt documents. They become one
  generic error message (see "Left out").
- The registry lookup `consultar_todos_os_orgaos` is called even when no
  CNPJ was found: it receives None. In `AnalyzeText`, the lookup is applied
  to the `Option` that extraction returned.
- The leftmost match wins, so in `12.345.678/9012-12.345.678/9012-34` the
  value extracted is `12.345.678/9012-12` (`Cnpj.LeftmostOverlap`).
  `Cnpj.ExtractEmbedded` proves a sufficient condition for an embedded
  number to be the one extracted: the text before it holds no match and does
  not end in a digit or `-`.
- `validar_empresa_publica` judges the unstripped line, and the response
  reports the stripped one. `Entity.PlausibleIgnoresStrip` proves the
  verdict is the same for both.
- A `.txt` upload is read in text mode (main.py:112-113), so each `\r\n`
  and each lone `\r` arrives as `\n`. `Analysis.TextModeKeepsLines` proves
  this leaves the lines, and so the guessed name, unchanged.
- A DOCX paragraph can hold a soft line break, which python-docx returns as
  `\n` inside the paragraph's text. The name is then taken from a line, not
  from a whole paragraph. `Analysis.DocxNameIsFirstParagraph` covers
  paragraphs without line boundaries.

## Model

| member | source | states |
|---|---|---|
| Strings.LowerStr | main.py:86 | `lower()` keeps the length, leaves no capital behind and changes no character that is not a capital |
| Strings.Contains | main.py:92 | the `in` test: the empty pattern is in every string, and a pattern found is no longer than the text |
| Strings.EndsWith | main.py:104 | `endswith(suffix)` holds exactly when the string is some prefix followed by `suffix` |
| Strings.Concat | main.py:106 | `"".join(pages)` holds every page as a substring |
| Strings.Join | main.py:110 | `"\n".join(paragraphs)` holds every paragraph, and the separator when there are two or more |
| Strings.LowerIdempotent | main.py:86 | lower-casing one character leaves no capital and is idempotent |
| Strings.LowerStrIdempotent | main.py:86 | `lower()` applied twice equals `lower()` applied once |
| Strings.ContainsTransitive | main.py:92 | the `in` test is transitive: a pattern inside a substring of `u` is inside `u` |
| Strings.ContainsLower | main.py:86 | a substring stays a substring after both strings are lower-cased |
| Strings.ContainsParts | main.py:92 | both halves of a concatenation are substrings of it |
| Strings.Strip | main.py:131 | `strip()` returns the slice outside which every character is whitespace, and the slice neither starts nor ends with whitespace |
| Strings.StrippedBoundsUnique | main.py:131 | those bounds fix the stripped string uniquely |
| Strings.StripIdempotent | main.py:131 | stripping twice equals stripping once |
| Strings.StripKeepsOccurrence | main.py:131 | an occurrence in the lower-cased text of a pattern that neither starts nor ends with whitespace is still found after stripping |
| Strings.StripAddsNoOccurrence | main.py:131 | anything found in the lower-cased stripped text is found in the lower-cased original |
| Strings.StripKeepsLowerContains | main.py:121 | a pattern that neither starts nor ends with whitespace is found in the lower-cased stripped string exactly when it is found in the lower-cased original |
| Strings.SplitLines | main.py:117 | `splitlines()` yields pieces with no line boundary, and no pieces exactly for the empty text |
| Strings.SplitLinesLosesOnlyBreaks | main.py:117 | the lines, concatenated, are the text with every line-boundary character removed |
| Strings.SplitJoinRoundTrip | main.py:110 | paragraphs joined with `\n` split back into the same paragraphs when none holds a boundary and the last is non-empty |
| Strings.SplitJoinDropsLastEmpty | main.py:110 | paragraphs without boundaries followed by an empty one split back into the paragraphs without that empty last one |
| Strings.SplitLinesInText | main.py:117 | every line `splitlines()` yields is a substring of the text |
| Score.CountPresent | main.py:92 | the number of keys found is at most the number of keys |
| Score.CalcScore | main.py:85-93 | the score lies in 0..100 and is a multiple of 10 |
| Score.KeywordsDistinct | main.py:87-91 | the fifteen keywords are pairwise distinct |
| Score.CountPresentIsCardinality | main.py:92 | over a list without repeats, the count equals the size of the set of keys found |
| Score.ScoreCountsDistinctKeywords | main.py:86-93 | score = 10 * min(10, number of distinct keywords in the lower-cased text), so repeating a keyword never raises it |
| Score.ScoreIgnoresCase | main.py:86 | the score of `lower(t)` equals the score of `t` |
| Score.ScoreDependsOnLowerOnly | main.py:86 | two texts that agree once lower-cased get the same score |
| Score.CountPresentMonotone | main.py:92 | a text that contains another finds at least as many keys |
| Score.ScoreMonotone | main.py:92-93 | if `t` is a substring of `u`, then score(t) <= score(u) |
| Score.ScoreAppendNeverLowers | main.py:92-93 | adding text before or after never lowers the score |
| Cnpj.FindFrom | main.py:21 | returns None exactly when no window from `i` on matches; otherwise the smallest matching index at or after `i` |
| Cnpj.ExtractCnpj | main.py:20-22 | None exactly when no 18-character window matches `NN.NNN.NNN/NNNN-NN`; otherwise a matching window at the smallest matching index |
| Cnpj.ExtractWhole | main.py:20-22 | a CNPJ on its own is returned unchanged |
| Cnpj.NoMatchOverlappingFront | main.py:21 | no window starting 1 to 15 characters before a CNPJ matches |
| Cnpj.ExtractEmbedded | main.py:20-22 | a CNPJ preceded by match-free text that does not end in a digit or `-` is the one extracted, whatever follows |
| Cnpj.LeftmostOverlap | main.py:21 | the leftmost window wins over a later, complete-looking number |
| Entity.FirstCompanyLine | main.py:118 | with no line mentioning "empresa", the fallback; otherwise the first line that does |
| Entity.FallbackMentionsCompany | main.py:118 | the fallback "Empresa Auditada" itself mentions "empresa" |
| Entity.GuessName | main.py:117-118 | the guessed name mentions "empresa", and it is the fallback or a substring of the text without line boundaries |
| Entity.FirstCompanyLineIgnoresLast | main.py:118 | appending a line that does not mention "empresa" never changes the name |
| Entity.StrippedNameMentionsCompany | main.py:118 | the stripped name that is reported still mentions "empresa" |
| Entity.IsPlausiblePublic | main.py:120-123 | the name is plausible exactly when its lower-cased form holds no deny-listed fragment ("fake", "jurandir") |
| Entity.PlausibleIgnoresCase | main.py:121 | a name and its lower-cased form get the same verdict |
| Entity.FallbackIsPlausible | main.py:118-123 | the fallback name is judged plausible |
| Entity.FakeIsImplausible | main.py:121-122 | a name containing "Fake" is judged implausible |
| Entity.PlausibleIgnoresStrip | main.py:120-125 | the verdict on the stripped name equals the verdict on the unstripped one |
| Analysis.DetectFormat | main.py:104-115 | the format is PDF, DOCX or TXT exactly when the lower-cased filename ends with that format's suffix; otherwise the unsupported-format error |
| Analysis.SuffixesExclusive | main.py:104-111 | no name ends with two of the suffixes, so the order of the tests does not matter |
| Analysis.DetectFormatIgnoresCase | main.py:96 | the dispatch gives the same answer for a filename and its lower-cased form |
| Analysis.ReadTextMode | main.py:111-113 | reading in text mode leaves no `\r`, and leaves a text without `\r` unchanged |
| Analysis.ReadTextModePrefix | main.py:111-113 | a prefix without `\r` passes through reading unchanged |
| Analysis.TextModeKeepsLines | main.py:111-117 | reading in text mode does not change the lines of the text |
| Analysis.TxtNameIgnoresNewlineStyle | main.py:111-118 | a plain-text upload gets the same name whatever its newline style |
| Analysis.ExtractText | main.py:104-113 | the PDF text holds every page, the DOCX text holds every paragraph, and the plain text holds no `\r` |
| Analysis.PdfScoreAtLeastPage | main.py:106 | a PDF scores at least as much as any of its pages |
| Analysis.DocxLinesAreParagraphs | main.py:109-117 | for a DOCX whose paragraphs hold no line boundary and whose last paragraph is non-empty, the lines are the paragraphs |
| Analysis.DocxNameIsFirstParagraph | main.py:109-118 | for a DOCX whose paragraphs hold no line boundary, the name is the first paragraph mentioning "empresa", even when the last paragraph is empty |
| Analysis.AnalyzeText | main.py:117-137 | the name is the stripped guessed name, the score is `CalcScore` of the text, the CNPJ is `ExtractCnpj` of the text, and the registry data is the lookup of that CNPJ; hence the score is in 0..100 and a multiple of 10, the flag is the plausibility of the reported name, the name mentions "empresa" and is stripped, the CNPJ has the layout and is None exactly when none matches, and the text is returned as given |
| Analysis.Analyze | main.py:96-137 | an error exactly when no supported suffix ends the lower-cased filename; otherwise the detected format's suffix ends the name, and the report is `AnalyzeText` of that format's text |
| Analysis.AnalyzeDetected | main.py:104-137 | once the format is detected, the result is the report on that format's text |
| Scenario.UploadKeywords | main.py:87-92 | exactly "esg", "sustentabilidade" and "governança" are found in the example upload |
| Scenario.UploadScore | main.py:85-93 | the example upload scores 30 |
| Scenario.UploadFirstLine | main.py:117-118 | the example's name is its first line, "Empresa: Green Co" |
| Scenario.HeaderStripped | main.py:131 | that name is unchanged by `strip()` |
| Scenario.HeaderPlausible | main.py:120-123 | that name holds no deny-listed fragment and is judged plausible |
| Scenario.UploadCnpj | main.py:20-22 | the example's CNPJ `12.345.678/9012-34` is extracted |
| Scenario.UploadReadUnchanged | main.py:111-113 | the example upload has no `\r`, so text-mode reading leaves it unchanged |
| Scenario.LowerTxtNameDetected | main.py:96-113 | `relatorio.TXT` is read as plain text |
| Scenario.UploadReport | main.py:117-137 | the report on the example's text |
| Scenario.UploadAnalysis | main.py:94-137 | the whole report for the example upload `relatorio.TXT` |
| Scenario.UnknownSuffixRefused | main.py:104-115 | `report.xyz` gives the unsupported-format error |
| Scenario.UpperCasePdfAccepted | main.py:96-106 | `RELATORIO.PDF` is read as a PDF |

## Left out

- PDF and DOCX parsing (PyMuPDF, python-docx) and UTF-8 decoding are not
  modelled. Their outputs (page texts, paragraph texts, decoded text) are
  inputs: `Analysis.Parsed`. The newline translation of the text-mode read
  is modelled (`Analysis.ReadTextMode`).
- The temporary file written at main.py:99-101 is left out, because it is
  I/O.
- `consultar_todos_os_orgaos` is an opaque function parameter of
  `AnalyzeText`. Its source is not part of this model, and it performs
  concurrent network calls. `validate_cnpj` (main.py:24-38) is left out for
  the same reason: it is a network call.
- Exceptions raised during parsing or lookup are not modelled. The source
  turns them into one error message (main.py:139-140).
- JWT issuance and checking (main.py:49-67) are left out: they wrap a
  library and read the clock.
- `send_email` (main.py:143-172) is left out: it is SMTP plumbing.
- The FastAPI routes, CORS setup, `read_root`, `login_dummy` and
  `consultar_orgaos_publicos` are left out: they are routing only.
- `str.lower` is modelled only for ASCII A-Z and the Latin-1 capitals
  U+00C0..U+00DE, except U+00D7. All other characters are left unchanged.
  Python also lower-cases Greek, Cyrillic, Latin Extended letters and
  others, some into two characters. Of these, only U+212A KELVIN SIGN
  changes a verdict: Python lower-cases it to `k`, so main.py:121 judges
  `"FA\u212AE"` implausible, while the model leaves it unchanged and judges
  that name plausible.
- `\d` is modelled as `0`..`9`. Python's `re` also accepts other Unicode
  decimal digits in a `str` pattern.
- `str.strip` and `str.splitlines` use Python's full sets of whitespace and
  line-boundary characters. Strings are sequences of Unicode scalar values.
  Surrogates and byte-level behaviour are outside the model.
