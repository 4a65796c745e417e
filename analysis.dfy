/** The `/analyze` pipeline of the backend: pick the parser from the
    filename's suffix, take the text the parser yields, and build the
    report from the score, the company-name guess, its plausibility, the
    CNPJ and the registry data looked up for it. */
module Analysis {
  import opened Strings
  import opened Score
  import opened Cnpj
  import opened Entity

  /** The three formats the endpoint accepts. */
  datatype Format = Pdf | Docx | Txt

  datatype AnalysisError = UnsupportedFormat

  datatype Result<+T> = Ok(value: T) | Err(error: AnalysisError)

  /** The suffix that selects each format. */
  function Suffix(f: Format): string {
    match f
    case Pdf => ".pdf"
    case Docx => ".docx"
    case Txt => ".txt"
  }

  /** The `if/elif` chain on `filename.lower()`: `.pdf`, then `.docx`, then
      `.txt`; any other name is an unsupported format. */
  function DetectFormat(filename: string): (r: Result<Format>)
    ensures forall f: Format :: r == Ok(f) <==> EndsWith(LowerStr(filename), Suffix(f))
    ensures r.Err? <==> forall f: Format :: !EndsWith(LowerStr(filename), Suffix(f))
  {
    var name := LowerStr(filename);
    SuffixesExclusive(name);
    if EndsWith(name, ".pdf") then Ok(Pdf)
    else if EndsWith(name, ".docx") then Ok(Docx)
    else if EndsWith(name, ".txt") then Ok(Txt)
    else Err(UnsupportedFormat)
  }

  /** No name ends with two of the suffixes (their last letters differ), so
      the order in which the source tests them does not matter. */
  lemma SuffixesExclusive(name: string)
    ensures forall f: Format, g: Format ::
              EndsWith(name, Suffix(f)) && EndsWith(name, Suffix(g)) ==> f == g
  {
    forall f: Format, g: Format | EndsWith(name, Suffix(f)) && EndsWith(name, Suffix(g))
      ensures f == g
    {
      assert name[|name| - 1] == Suffix(f)[|Suffix(f)| - 1];
      assert name[|name| - 1] == Suffix(g)[|Suffix(g)| - 1];
    }
  }

  /** The dispatch ignores the case of the filename. */
  lemma DetectFormatIgnoresCase(filename: string)
    ensures DetectFormat(LowerStr(filename)) == DetectFormat(filename)
  {
    LowerStrIdempotent(filename);
  }

  /** What the document libraries yield for the uploaded bytes: the page
      texts of the PDF reader, the paragraph texts of the DOCX reader, and
      the bytes decoded as UTF-8, before the newline translation of a
      text-mode read. Parsing and decoding are outside the model. */
  datatype Parsed = Parsed(pdfPages: seq<string>, docxParagraphs: seq<string>, utf8Text: string)

  /** `open(path, "r", encoding="utf-8").read()` translates newlines: each
      `\r\n` and each lone `\r` of the decoded text comes back as `\n`.
      No carriage return is left, and a text without one is unchanged. */
  function ReadTextMode(decoded: string): (r: string)
    ensures Lacks(r, '\r')
    ensures Lacks(decoded, '\r') ==> r == decoded
    decreases |decoded|
  {
    if decoded == [] then []
    else if decoded[0] == '\r' then
      "\n" + ReadTextMode(if |decoded| > 1 && decoded[1] == '\n' then decoded[2..] else decoded[1..])
    else
      [decoded[0]] + ReadTextMode(decoded[1..])
  }

  /** A prefix without carriage returns passes through unchanged. */
  lemma {:induction false} ReadTextModePrefix(p: string, q: string)
    requires Lacks(p, '\r')
    ensures ReadTextMode(p + q) == p + ReadTextMode(q)
    decreases |p|
  {
    if p == [] {
      assert p + q == q;
    } else {
      assert (p + q)[0] == p[0];
      assert (p + q)[1..] == p[1..] + q;
      ReadTextModePrefix(p[1..], q);
    }
  }

  /** The line boundary at `k` is read as one boundary character that is
      not a carriage return, followed by the rest read in text mode. */
  lemma ReadTextModeBreak(s: string, k: nat)
    requires k < |s| && IsLineBreak(s[k])
    ensures ReadTextMode(s[k..])
            == [if s[k] == '\r' then '\n' else s[k]] + ReadTextMode(s[k + BreakWidth(s, k)..])
  {
    var t := s[k..];
    assert t[0] == s[k];
    if |t| > 1 {
      assert t[1] == s[k + 1];
      assert t[2..] == s[k + 2..];
    }
    assert t[1..] == s[k + 1..];
  }

  /** Text-mode reading of a line without carriage returns followed by
      a text whose reading starts with the character `b`. */
  lemma ReadTextModeJoin(line: string, tail: string, b: char, after: string)
    requires Lacks(line, '\r') && ReadTextMode(tail) == [b] + after
    ensures ReadTextMode(line + tail) == line + [b] + after
  {
    ReadTextModePrefix(line, tail);
    assert line + ([b] + after) == line + [b] + after;
  }

  /** A carriage return is a line boundary, so a text without boundaries
      has none. */
  lemma NoBreakNoCarriageReturn(t: string)
    requires NoLineBreak(t)
    ensures Lacks(t, '\r')
  {
    assert IsLineBreak('\r');
  }

  /** Reading in text mode does not change the lines of the text: each
      boundary stays one boundary, `\r\n` included. */
  lemma {:induction false} TextModeKeepsLines(s: string)
    ensures SplitLines(ReadTextMode(s)) == SplitLines(s)
    decreases |s|
  {
    if s != [] {
      var k := NextBreak(s, 0);
      if k == |s| {
        assert s[0..k] == s;
        NoBreakNoCarriageReturn(s);
      } else {
        var rest := s[k + BreakWidth(s, k)..];
        var b: char := if s[k] == '\r' then '\n' else s[k];
        var line := s[..k];
        assert s[0..k] == line && s == line + s[k..];
        NoBreakNoCarriageReturn(line);
        ReadTextModeBreak(s, k);
        ReadTextModeJoin(line, s[k..], b, ReadTextMode(rest));
        SplitAroundBreak(line, b, ReadTextMode(rest));
        SplitLinesStep(s);
        TextModeKeepsLines(rest);
      }
    }
  }

  /** So a plain-text upload is named the same whatever its newline
      style. */
  lemma TxtNameIgnoresNewlineStyle(decoded: string)
    ensures GuessName(ReadTextMode(decoded)) == GuessName(decoded)
  {
    TextModeKeepsLines(decoded);
  }

  /** The text of the document for the detected format: pages concatenated
      with nothing between them, paragraphs joined with line feeds, or the
      decoded text read in text mode. */
  function ExtractText(f: Format, parsed: Parsed): (text: string)
    ensures f == Pdf ==> forall i | 0 <= i < |parsed.pdfPages| :: Contains(text, parsed.pdfPages[i])
    ensures f == Docx ==> forall i | 0 <= i < |parsed.docxParagraphs| :: Contains(text, parsed.docxParagraphs[i])
    ensures f == Txt ==> Lacks(text, '\r')
  {
    match f
    case Pdf => Concat(parsed.pdfPages)
    case Docx => Join("\n", parsed.docxParagraphs)
    case Txt => ReadTextMode(parsed.utf8Text)
  }

  /** A PDF scores at least as much as any one of its pages. */
  lemma PdfScoreAtLeastPage(parsed: Parsed, i: nat)
    requires i < |parsed.pdfPages|
    ensures CalcScore(parsed.pdfPages[i]) <= CalcScore(ExtractText(Pdf, parsed))
  {
    ScoreMonotone(parsed.pdfPages[i], ExtractText(Pdf, parsed));
  }

  /** For a DOCX whose paragraphs hold no line boundary and whose last
      paragraph is not empty, the lines of the text are its paragraphs. */
  lemma DocxLinesAreParagraphs(parsed: Parsed)
    requires parsed.docxParagraphs != []
    requires parsed.docxParagraphs[|parsed.docxParagraphs| - 1] != []
    requires forall k | 0 <= k < |parsed.docxParagraphs| :: NoLineBreak(parsed.docxParagraphs[k])
    ensures SplitLines(ExtractText(Docx, parsed)) == parsed.docxParagraphs
  {
    SplitJoinRoundTrip(parsed.docxParagraphs);
  }

  /** For a DOCX whose paragraphs hold no line boundary (no soft line
      break), the name is taken from the first paragraph that mentions the
      company; an empty last paragraph, which `splitlines` drops, makes no
      difference. */
  lemma DocxNameIsFirstParagraph(parsed: Parsed)
    requires forall k | 0 <= k < |parsed.docxParagraphs| :: NoLineBreak(parsed.docxParagraphs[k])
    ensures GuessName(ExtractText(Docx, parsed)) == FirstCompanyLine(parsed.docxParagraphs)
  {
    var ps := parsed.docxParagraphs;
    if ps == [] {
    } else if ps[|ps| - 1] != [] {
      SplitJoinRoundTrip(ps);
    } else {
      var init := ps[..|ps| - 1];
      assert ps == init + [[]];
      SplitJoinDropsLastEmpty(init);
      FirstCompanyLineIgnoresLast(init, []);
    }
  }

  /** The dictionary `analyze` returns on success, with the registry data
      left as an opaque value of type `R`. */
  datatype Report<R> = Report(
    company: string,
    score: nat,
    publiclyPlausible: bool,
    text: string,
    cnpj: Option<string>,
    registry: R)

  /** Analysis of an extracted text; `lookup` stands for
      `consultar_todos_os_orgaos`, which is called with whatever
      `extract_cnpj` returned, None included. */
  function AnalyzeText<R>(text: string, lookup: Option<string> -> R): (r: Report<R>)
    ensures r.score <= MaxScore && r.score % PointsPerKeyword == 0
    ensures r.publiclyPlausible == IsPlausiblePublic(r.company)
    ensures MentionsCompany(r.company)
    ensures Trimmed(r.company)
    ensures r.cnpj.Some? ==> IsCnpj(r.cnpj.value)
    ensures r.cnpj.None? <==> forall i :: !MatchesAt(text, i)
    ensures r.text == text && r.registry == lookup(r.cnpj)
    ensures r.company == Strip(GuessName(text))
    ensures r.score == CalcScore(text)
    ensures r.cnpj == ExtractCnpj(text)
  {
    var name := GuessName(text);
    var company := Strip(name);
    PlausibleIgnoresStrip(name);
    StrippedNameMentionsCompany(text);
    assert IsPlausiblePublic(name) == IsPlausiblePublic(company) && MentionsCompany(company);
    var cnpj := ExtractCnpj(text);
    assert cnpj.None? <==> forall i :: !MatchesAt(text, i);
    Report(company, CalcScore(text), IsPlausiblePublic(name), text, cnpj, lookup(cnpj))
  }

  /** `analyze`: an unsupported suffix gives the error and nothing else;
      otherwise the text of the detected format is analysed. */
  function Analyze<R>(filename: string, parsed: Parsed, lookup: Option<string> -> R): (r: Result<Report<R>>)
    ensures r.Err? <==> forall f: Format :: !EndsWith(LowerStr(filename), Suffix(f))
    ensures r.Ok? ==> exists f: Format :: EndsWith(LowerStr(filename), Suffix(f))
                                         && DetectFormat(filename) == Ok(f)
                                         && r.value == AnalyzeText(ExtractText(f, parsed), lookup)
  {
    match DetectFormat(filename)
    case Err(e) => Err(e)
    case Ok(f) => Ok(AnalyzeText(ExtractText(f, parsed), lookup))
  }

  /** Once the format is detected, `analyze` reports on that format's
      text. */
  lemma AnalyzeDetected<R>(filename: string, parsed: Parsed, lookup: Option<string> -> R, f: Format)
    requires DetectFormat(filename) == Ok(f)
    ensures Analyze(filename, parsed, lookup) == Ok(AnalyzeText(ExtractText(f, parsed), lookup))
  {
  }
}
