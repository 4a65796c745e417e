/** The entity-name heuristic of `analyze` and its nested plausibility
    check `validar_empresa_publica`. */
module Entity {
  import opened Strings

  /** The name reported when no line mentions a company. */
  const Fallback := "Empresa Auditada"

  /** The word a line must hold, once lower-cased, to name the company. */
  const CompanyWord := "empresa"

  /** The deny-list of the plausibility check. */
  const DenyList: seq<string> := ["fake", "jurandir"]

  /** `"empresa" in linha.lower()`. */
  predicate MentionsCompany(line: string) {
    Contains(LowerStr(line), CompanyWord)
  }

  /** `next((linha for linha in lines if ...), "Empresa Auditada")`: the first
      line that mentions the company, or the fallback when none does. */
  function FirstCompanyLine(lines: seq<string>): (name: string)
    ensures (forall i | 0 <= i < |lines| :: !MentionsCompany(lines[i])) ==> name == Fallback
    ensures (exists i | 0 <= i < |lines| :: MentionsCompany(lines[i])) ==>
              exists i | 0 <= i < |lines| :: name == lines[i] && MentionsCompany(lines[i])
                                            && forall j | 0 <= j < i :: !MentionsCompany(lines[j])
    decreases |lines|
  {
    if lines == [] then Fallback
    else if MentionsCompany(lines[0]) then lines[0]
    else
      var name := FirstCompanyLine(lines[1..]);
      assert forall i | 1 <= i < |lines| :: lines[i] == lines[1..][i - 1];
      name
  }

  /** The company name guessed from the text, before stripping: it
      mentions the company, and it is the fallback or a whole line of the
      text, so it holds no line boundary. */
  function GuessName(text: string): (name: string)
    ensures MentionsCompany(name)
    ensures name == Fallback || (NoLineBreak(name) && Contains(text, name))
  {
    FallbackMentionsCompany();
    SplitLinesInText(text);
    FirstCompanyLine(SplitLines(text))
  }

  /** A last line that does not mention the company never changes the
      name. */
  lemma {:induction false} FirstCompanyLineIgnoresLast(lines: seq<string>, x: string)
    requires !MentionsCompany(x)
    ensures FirstCompanyLine(lines + [x]) == FirstCompanyLine(lines)
    decreases |lines|
  {
    if lines == [] {
      assert [] + [x] == [x] && [x][1..] == [];
    } else {
      assert (lines + [x])[0] == lines[0];
      assert (lines + [x])[1..] == lines[1..] + [x];
      FirstCompanyLineIgnoresLast(lines[1..], x);
    }
  }

  /** The fallback itself mentions the company. */
  lemma FallbackMentionsCompany()
    ensures MentionsCompany(Fallback)
  {
    assert LowerStr(Fallback)[0..7] == CompanyWord;
    assert OccursAt(LowerStr(Fallback), CompanyWord, 0);
  }

  /** Whatever the text, the stripped name that is reported still
      mentions the company. */
  lemma StrippedNameMentionsCompany(text: string)
    ensures MentionsCompany(Strip(GuessName(text)))
  {
    StripKeepsLowerContains(GuessName(text), CompanyWord);
  }

  /** `validar_empresa_publica(nome)`: false exactly when the lower-cased
      name holds a deny-listed fragment. */
  function IsPlausiblePublic(name: string): (ok: bool)
    ensures ok <==> forall k | 0 <= k < |DenyList| :: !Contains(LowerStr(name), DenyList[k])
  {
    !(Contains(LowerStr(name), DenyList[0]) || Contains(LowerStr(name), DenyList[1]))
  }

  /** The verdict does not depend on the case of the name. */
  lemma PlausibleIgnoresCase(name: string)
    ensures IsPlausiblePublic(LowerStr(name)) == IsPlausiblePublic(name)
  {
    LowerStrIdempotent(name);
  }

  /** The fallback name is judged plausible. */
  lemma FallbackIsPlausible()
    ensures IsPlausiblePublic(Fallback)
  {
    var lf := LowerStr(Fallback);
    assert lf == "empresa auditada";
    forall i | 0 <= i <= |lf| - 4 ensures !OccursAt(lf, "fake", i) {
      assert lf[i..i + 4][0] == lf[i];
      assert lf[i..i + 4][2] == lf[i + 2];
    }
    forall i | 0 <= i <= |lf| - 8 ensures !OccursAt(lf, "jurandir", i) {
      assert lf[i..i + 8][0] == lf[i];
      assert lf[i..i + 8][1] == lf[i + 1];
    }
  }

  /** A name holding "Fake" in any case is judged implausible. */
  lemma FakeIsImplausible(name: string)
    requires Contains(name, "Fake")
    ensures !IsPlausiblePublic(name)
  {
    ContainsLower(name, "Fake");
    assert LowerStr("Fake") == "fake";
  }

  /** Stripping does not change the verdict: no deny-listed fragment starts
      or ends with whitespace. The source judges the unstripped name and
      reports the stripped one; this lemma says the two agree. */
  lemma PlausibleIgnoresStrip(name: string)
    ensures IsPlausiblePublic(Strip(name)) == IsPlausiblePublic(name)
  {
    StripKeepsLowerContains(name, DenyList[0]);
    StripKeepsLowerContains(name, DenyList[1]);
  }
}
