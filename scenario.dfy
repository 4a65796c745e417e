/** A worked example of the whole pipeline: a plain-text upload that names
    the company on its first line, mentions three of the keywords and
    carries a CNPJ on its last line. */
module Scenario {
  import opened Strings
  import opened Score
  import opened Cnpj
  import opened Entity
  import opened Analysis

  /** A pattern that holds a fragment absent from `t` is absent from `t`. */
  lemma AbsentByFragment(t: string, pat: string, fragment: string)
    requires Contains(pat, fragment) && !Contains(t, fragment)
    ensures !Contains(t, pat)
  {
    if Contains(t, pat) {
      ContainsTransitive(t, pat, fragment);
    }
  }

  /** A one-character string is in `t` only if that character is. */
  lemma AbsentChar(t: string, c: char)
    requires Lacks(t, c)
    ensures !Contains(t, [c])
  {
    forall i | 0 <= i <= |t| - 1 ensures !OccursAt(t, [c], i) {
      assert t[i..i + 1][0] == t[i];
    }
  }

  /** Two adjacent characters `x`, `y` occur nowhere in `t`. */
  predicate NoPair(t: string, x: char, y: char) {
    forall i | 0 <= i < |t| - 1 :: !(t[i] == x && t[i + 1] == y)
  }

  lemma AbsentPair(t: string, x: char, y: char)
    requires NoPair(t, x, y)
    ensures !Contains(t, [x, y])
  {
    forall i | 0 <= i <= |t| - 2 ensures !OccursAt(t, [x, y], i) {
      assert t[i..i + 2][0] == t[i] && t[i..i + 2][1] == t[i + 1];
    }
  }

  /** `t` holds no decimal digit. */
  predicate NoDigit(t: string) {
    forall i | 0 <= i < |t| :: !IsDigit(t[i])
  }

  lemma NoDigitAppend(s: string, t: string)
    requires NoDigit(s) && NoDigit(t)
    ensures NoDigit(s + t)
  {
    forall i | 0 <= i < |s + t| ensures !IsDigit((s + t)[i]) {
      if i >= |s| {
        assert (s + t)[i] == t[i - |s|];
      }
    }
  }

  /** Text with no digit holds no CNPJ. */
  lemma NoDigitNoCnpj(t: string)
    requires NoDigit(t)
    ensures ExtractCnpj(t) == None
  {
    forall i | 0 <= i && i + CnpjLength <= |t| ensures !MatchesAt(t, i) {
      assert !IsDigit(t[i]);
      assert t[i..i + CnpjLength][0] == t[i];
    }
  }

  /** `p` sits between `a` and `b`. */
  lemma OccursBetween(a: string, p: string, b: string)
    ensures OccursAt(a + p + b, p, |a|)
  {
    assert (a + p + b)[|a|..|a| + |p|] == p;
  }

  const Header := "Empresa: Green Co"
  const Body := "ESG" + " " + Sustentabilidade + " " + Governanca
  const Number := "12.345.678/9012-34"
  const Prefix := Header + "\n" + Body + "\n"
  const Upload := Prefix + Number

  /** The lower-cased upload, word by word. */
  const LowerHeader := "empresa: green co"
  const Esg := "esg"
  const Sustentabilidade := "sustentabilidade"
  const Governanca := "governança"
  const LowerBody := Esg + " " + Sustentabilidade + " " + Governanca
  const LowerUpload := LowerHeader + "\n" + LowerBody + "\n" + Number

  lemma LowerHeaderIs()
    ensures LowerStr(Header) == LowerHeader
  {
  }

  /** The words of the body that are already in lower case. */
  lemma LowerKept(w: string)
    requires w == Sustentabilidade || w == Governanca || w == " "
    ensures LowerStr(w) == w
  {
    LowerStrNoCapital(w);
  }

  lemma LowerBodyIs()
    ensures LowerStr(Body) == LowerBody
  {
    assert LowerStr("ESG") == Esg;
    LowerKept(" ");
    LowerKept(Sustentabilidade);
    LowerKept(Governanca);
    LowerStrAppend("ESG", " ");
    LowerStrAppend("ESG" + " ", Sustentabilidade);
    LowerStrAppend("ESG" + " " + Sustentabilidade, " ");
    LowerStrAppend("ESG" + " " + Sustentabilidade + " ", Governanca);
  }

  lemma LowerUploadIs()
    ensures LowerStr(Header) == LowerHeader
    ensures LowerStr(Upload) == LowerUpload
  {
    LowerHeaderIs();
    LowerBodyIs();
    LowerStrNoCapital(Number);
    LowerStrNoCapital("\n");
    LowerStrAppend(Header, "\n");
    LowerStrAppend(Header + "\n", Body);
    LowerStrAppend(Header + "\n" + Body, "\n");
    LowerStrAppend(Prefix, Number);
  }

  /** The upload has no carriage return, so reading it in text mode
      changes nothing. */
  lemma UploadReadUnchanged()
    ensures ReadTextMode(Upload) == Upload
  {
    assert Lacks(Header, '\r') && Lacks("\n", '\r') && Lacks(Number, '\r');
    assert Lacks(Body, '\r');
    LacksAppend(Header, "\n", '\r');
    LacksAppend(Header + "\n", Body, '\r');
    LacksAppend(Header + "\n" + Body, "\n", '\r');
    LacksAppend(Prefix, Number, '\r');
  }

  /** A character of the pattern that the text lacks. */
  lemma AbsentByChar(t: string, pat: string, i: nat)
    requires i < |pat| && Lacks(t, pat[i])
    ensures !Contains(t, pat)
  {
    AbsentChar(t, pat[i]);
    assert OccursAt(pat, [pat[i]], i);
    AbsentByFragment(t, pat, [pat[i]]);
  }

  /** A pair of adjacent characters of the pattern that the text lacks. */
  lemma AbsentByPair(t: string, pat: string, i: nat)
    requires i + 1 < |pat| && NoPair(t, pat[i], pat[i + 1])
    ensures !Contains(t, pat)
  {
    AbsentPair(t, pat[i], pat[i + 1]);
    assert pat[i..i + 2] == [pat[i], pat[i + 1]];
    assert OccursAt(pat, [pat[i], pat[i + 1]], i);
    AbsentByFragment(t, pat, [pat[i], pat[i + 1]]);
  }

  lemma LacksAppend(s: string, t: string, c: char)
    requires Lacks(s, c) && Lacks(t, c)
    ensures Lacks(s + t, c)
  {
    forall j | 0 <= j < |s + t| ensures (s + t)[j] != c {
      if j >= |s| {
        assert (s + t)[j] == t[j - |s|];
      }
    }
  }

  /** Letters of the keywords that the upload does not hold. */
  predicate Missing(c: char) {
    c in "fá\U{E3}íó\U{F5}"
  }

  lemma HeaderLacks(c: char)
    requires Missing(c)
    ensures Lacks(LowerHeader, c)
  {
  }

  lemma BodyLacks(c: char)
    requires Missing(c)
    ensures Lacks(LowerBody, c)
  {
  }

  lemma NumberLacks(c: char)
    requires Missing(c)
    ensures Lacks(Number, c) && Lacks("\n", c)
  {
  }

  lemma UploadLacks(c: char)
    requires Missing(c)
    ensures Lacks(LowerUpload, c)
  {
    HeaderLacks(c);
    BodyLacks(c);
    NumberLacks(c);
    LacksAppend(LowerHeader, "\n", c);
    LacksAppend(LowerHeader + "\n", LowerBody, c);
    LacksAppend(LowerHeader + "\n" + LowerBody, "\n", c);
    LacksAppend(LowerHeader + "\n" + LowerBody + "\n", Number, c);
  }

  /** Pairs of adjacent letters of the keywords that the upload does not
      hold. */
  predicate MissingPair(x: char, y: char) {
    [x, y] in ["sc", "et", "ic"]
  }

  /** Two adjacent letters found in neither part, and not across the seam,
      are not in the concatenation. */
  lemma NoPairAppend(s: string, t: string, x: char, y: char)
    requires NoPair(s, x, y) && NoPair(t, x, y)
    requires s != [] && t != [] && (s[|s| - 1] != x || t[0] != y)
    ensures NoPair(s + t, x, y)
  {
    forall i | 0 <= i < |s + t| - 1 ensures !((s + t)[i] == x && (s + t)[i + 1] == y) {
      if i >= |s| {
        assert (s + t)[i] == t[i - |s|] && (s + t)[i + 1] == t[i + 1 - |s|];
      } else if i + 1 < |s| {
        assert (s + t)[i] == s[i] && (s + t)[i + 1] == s[i + 1];
      }
    }
  }

  lemma HeaderNoPair(x: char, y: char)
    requires MissingPair(x, y)
    ensures NoPair(LowerHeader + "\n", x, y)
  {
  }

  lemma BodyNoPair(x: char, y: char)
    requires MissingPair(x, y)
    ensures NoPair(LowerBody + "\n", x, y)
  {
  }

  lemma NumberNoPair(x: char, y: char)
    requires MissingPair(x, y)
    ensures NoPair(Number, x, y)
  {
  }

  lemma UploadNoPair(x: char, y: char)
    requires MissingPair(x, y)
    ensures NoPair(LowerUpload, x, y)
  {
    HeaderNoPair(x, y);
    BodyNoPair(x, y);
    NumberNoPair(x, y);
    assert x != '\n';
    NoPairAppend(LowerHeader + "\n", LowerBody + "\n", x, y);
    assert LowerHeader + "\n" + (LowerBody + "\n") == LowerHeader + "\n" + LowerBody + "\n";
    NoPairAppend(LowerHeader + "\n" + LowerBody + "\n", Number, x, y);
  }

  /** Three keywords occur in the lower-cased upload. */
  lemma UploadHasEsg()
    ensures Contains(LowerUpload, "esg")
  {
    var before := LowerHeader + "\n";
    var after := " " + Sustentabilidade + " " + Governanca + "\n" + Number;
    assert LowerUpload == before + Esg + after;
    OccursBetween(before, Esg, after);
  }

  lemma UploadHasSustentabilidade()
    ensures Contains(LowerUpload, "sustentabilidade")
  {
    var before := LowerHeader + "\n" + Esg + " ";
    var after := " " + Governanca + "\n" + Number;
    assert LowerUpload == before + Sustentabilidade + after;
    OccursBetween(before, Sustentabilidade, after);
  }

  lemma UploadHasGovernanca()
    ensures Contains(LowerUpload, "governança")
  {
    var before := LowerHeader + "\n" + Esg + " " + Sustentabilidade + " ";
    var after := "\n" + Number;
    assert LowerUpload == before + Governanca + after;
    OccursBetween(before, Governanca, after);
  }

  /** Eight keywords each hold a character that the lower-cased upload
      lacks. */
  lemma UploadLacksByChar()
    ensures !Contains(LowerUpload, "risco climático") && !Contains(LowerUpload, "ifrs")
    ensures !Contains(LowerUpload, "conformidade") && !Contains(LowerUpload, "emissões")
    ensures !Contains(LowerUpload, "transição ecológica") && !Contains(LowerUpload, "política")
    ensures !Contains(LowerUpload, "relatório")
  {
    UploadLacksLetterOf("risco climático", 10);
    UploadLacksLetterOf("ifrs", 1);
    UploadLacksLetterOf("conformidade", 3);
    UploadLacksLetterOf("emissões", 5);
    UploadLacksLetterOf("transição ecológica", 7);
    UploadLacksLetterOf("política", 3);
    UploadLacksLetterOf("relatório", 5);
  }

  /** A pattern holding one of the missing letters is not in the upload. */
  lemma UploadLacksLetterOf(pat: string, i: nat)
    requires i < |pat| && Missing(pat[i])
    ensures !Contains(LowerUpload, pat)
  {
    UploadLacks(pat[i]);
    AbsentByChar(LowerUpload, pat, i);
  }

  /** Five keywords each hold a pair of adjacent characters that the
      lower-cased upload lacks. */
  lemma UploadLacksByPair()
    ensures !Contains(LowerUpload, "escopo 1") && !Contains(LowerUpload, "escopo 2")
    ensures !Contains(LowerUpload, "escopo 3") && !Contains(LowerUpload, "metas")
    ensures !Contains(LowerUpload, "indicadores")
  {
    UploadLacksPairOf("escopo 1", 1);
    UploadLacksPairOf("escopo 2", 1);
    UploadLacksPairOf("escopo 3", 1);
    UploadLacksPairOf("metas", 1);
    UploadLacksPairOf("indicadores", 3);
  }

  /** A pattern holding one of the missing pairs is not in the upload. */
  lemma UploadLacksPairOf(pat: string, i: nat)
    requires i + 1 < |pat| && MissingPair(pat[i], pat[i + 1])
    ensures !Contains(LowerUpload, pat)
  {
    UploadNoPair(pat[i], pat[i + 1]);
    AbsentByPair(LowerUpload, pat, i);
  }

  /** Exactly three keywords occur in the upload. */
  lemma UploadKeywords()
    ensures Found(Upload) == {"esg", "sustentabilidade", "governança"}
  {
    LowerUploadIs();
    UploadHasEsg();
    UploadHasSustentabilidade();
    UploadHasGovernanca();
    UploadLacksByChar();
    UploadLacksByPair();
  }

  lemma UploadScore()
    ensures CalcScore(Upload) == 30
  {
    UploadKeywords();
    FoundThree();
    ScoreCountsDistinctKeywords(Upload);
  }

  lemma FoundThree()
    ensures |{"esg", "sustentabilidade", "governança"}| == 3
  {
    assert "esg" != "sustentabilidade" && "esg" != "governança";
    assert "sustentabilidade" != "governança";
  }

  /** The first line of the upload is the header, which mentions the
      company. */
  lemma UploadFirstLine()
    ensures GuessName(Upload) == Header
  {
    var hl := |Header|;
    assert Upload[..hl] == Header;
    assert Upload[hl] == '\n';
    assert NoLineBreak(Header);
    NextBreakAt(Upload, 0, hl);
    SplitLinesStep(Upload);
    LowerUploadIs();
    assert LowerHeader[0..7] == CompanyWord;
    assert OccursAt(LowerStr(Header), CompanyWord, 0);
  }

  /** The header has nothing to strip. */
  lemma HeaderStripped()
    ensures Strip(Header) == Header
  {
    assert StrippedBounds(Header, 0, |Header|);
    StrippedBoundsUnique(Header, StripBounds(Header).0, StripBounds(Header).1, 0, |Header|);
  }

  /** The header holds neither "fake" nor "jurandir". */
  lemma HeaderPlausible()
    ensures IsPlausiblePublic(Header)
  {
    LowerHeaderIs();
    assert Lacks(LowerHeader, 'f') && Lacks(LowerHeader, 'j');
    AbsentByChar(LowerHeader, "fake", 0);
    AbsentByChar(LowerHeader, "jurandir", 0);
  }

  /** Nothing before the number has a digit, and a line feed precedes it. */
  lemma PrefixNoDigit()
    ensures NoDigit(Prefix)
  {
    assert NoDigit(Header) && NoDigit("\n");
    assert NoDigit(Body);
    NoDigitAppend(Header, "\n");
    NoDigitAppend(Header + "\n", Body);
    NoDigitAppend(Header + "\n" + Body, "\n");
  }

  lemma UploadCnpj()
    ensures ExtractCnpj(Upload) == Some(Number)
  {
    PrefixNoDigit();
    NoDigitNoCnpj(Prefix);
    assert Upload == Prefix + Number + "";
    ExtractEmbedded(Prefix, Number, "");
  }

  /** The upload of the example scores 30, is attributed to "Empresa: Green
      Co", which is judged plausible, and yields its CNPJ. */
  lemma UploadAnalysis(lookup: Option<string> -> int)
    ensures Analyze("relatorio.TXT", Parsed([], [], Upload), lookup)
            == Ok(Report(Header, 30, true, Upload, Some(Number), lookup(Some(Number))))
  {
    LowerTxtNameDetected();
    AnalyzeDetected("relatorio.TXT", Parsed([], [], Upload), lookup, Txt);
    UploadReadUnchanged();
    assert ExtractText(Txt, Parsed([], [], Upload)) == Upload;
    UploadReport(lookup);
  }

  /** `relatorio.TXT` is read as plain text. */
  lemma LowerTxtNameDetected()
    ensures DetectFormat("relatorio.TXT") == Ok(Txt)
  {
    assert LowerStr("relatorio.TXT") == "relatorio.txt";
    assert EndsWith(LowerStr("relatorio.TXT"), Suffix(Txt));
  }

  /** The report on the text of the upload. */
  lemma UploadReport(lookup: Option<string> -> int)
    ensures AnalyzeText(Upload, lookup)
            == Report(Header, 30, true, Upload, Some(Number), lookup(Some(Number)))
  {
    UploadScore();
    UploadFirstLine();
    HeaderStripped();
    HeaderPlausible();
    UploadCnpj();
  }

  /** A `.xyz` upload is refused with the unsupported-format error. */
  lemma UnknownSuffixRefused(parsed: Parsed, lookup: Option<string> -> int)
    ensures Analyze("report.xyz", parsed, lookup) == Err(UnsupportedFormat)
  {
    LowerStrNoCapital("report.xyz");
    var n := "report.xyz";
    assert n[|n| - 1] == 'z';
    assert !EndsWith(n, ".pdf") && !EndsWith(n, ".docx") && !EndsWith(n, ".txt");
  }

  /** An upper-case `.PDF` name is read as a PDF. */
  lemma UpperCasePdfAccepted()
    ensures DetectFormat("RELATORIO.PDF") == Ok(Pdf)
  {
    assert LowerStr("RELATORIO.PDF") == "relatorio.pdf";
    assert EndsWith(LowerStr("RELATORIO.PDF"), ".pdf");
  }
}
