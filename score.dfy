/** The keyword score (`calcular_score`): how many of fifteen fixed
    Portuguese ESG terms occur in the lower-cased text, ten points each,
    capped at one hundred. */
module Score {
  import opened Strings

  /** The vocabulary, in the order the source lists it. */
  const Keywords: seq<string> := [
    "esg", "sustentabilidade", "governança", "risco climático", "ifrs",
    "emissões", "escopo 1", "escopo 2", "escopo 3", "transição ecológica",
    "política", "metas", "indicadores", "relatório", "conformidade"
  ]

  const PointsPerKeyword := 10
  const MaxScore := 100

  /** Number of entries of `keys` that occur in `text`; a key counts once
      however often it occurs. */
  function CountPresent(keys: seq<string>, text: string): (n: nat)
    ensures n <= |keys|
  {
    if keys == [] then 0
    else (if Contains(text, keys[0]) then 1 else 0) + CountPresent(keys[1..], text)
  }

  /** `calcular_score(texto)`. */
  function CalcScore(text: string): (r: nat)
    ensures r <= MaxScore && r % PointsPerKeyword == 0
  {
    var points := CountPresent(Keywords, LowerStr(text));
    if MaxScore <= points * PointsPerKeyword then MaxScore else points * PointsPerKeyword
  }

  /** The keywords found in `text` once it is lower-cased. */
  function Found(text: string): set<string> {
    set k | k in Keywords && Contains(LowerStr(text), k)
  }

  /** No keyword is listed twice. */
  lemma KeywordsDistinct()
    ensures forall i, j | 0 <= i < j < |Keywords| :: Keywords[i] != Keywords[j]
  {
  }

  /** Over a list without repeats, counting the present keys is the size of
      the set of present keys. */
  lemma {:induction false} CountPresentIsCardinality(keys: seq<string>, text: string)
    requires forall i, j | 0 <= i < j < |keys| :: keys[i] != keys[j]
    ensures CountPresent(keys, text) == |set k | k in keys && Contains(text, k)|
    decreases |keys|
  {
    if keys != [] {
      var tail := keys[1..];
      CountPresentIsCardinality(tail, text);
      var all := set k | k in keys && Contains(text, k);
      var rest := set k | k in tail && Contains(text, k);
      assert keys[0] !in tail;
      if Contains(text, keys[0]) {
        assert all == {keys[0]} + rest;
      } else {
        assert all == rest;
      }
    }
  }

  /** The score is ten points per distinct keyword found, capped at ten
      keywords: repeating a keyword never raises it. */
  lemma ScoreCountsDistinctKeywords(text: string)
    ensures CalcScore(text) == PointsPerKeyword * (if |Found(text)| < 10 then |Found(text)| else 10)
  {
    KeywordsDistinct();
    CountPresentIsCardinality(Keywords, LowerStr(text));
  }

  /** Upper or lower case makes no difference to the score. */
  lemma ScoreIgnoresCase(text: string)
    ensures CalcScore(LowerStr(text)) == CalcScore(text)
  {
    LowerStrIdempotent(text);
  }

  /** Two texts that agree once lower-cased ("ESG report" and "esg REPORT")
      score the same. */
  lemma ScoreDependsOnLowerOnly(t: string, u: string)
    requires LowerStr(t) == LowerStr(u)
    ensures CalcScore(t) == CalcScore(u)
  {
  }

  /** More text never finds fewer keys. */
  lemma {:induction false} CountPresentMonotone(keys: seq<string>, a: string, b: string)
    requires Contains(b, a)
    ensures CountPresent(keys, a) <= CountPresent(keys, b)
    decreases |keys|
  {
    if keys != [] {
      if Contains(a, keys[0]) {
        ContainsTransitive(b, a, keys[0]);
      }
      CountPresentMonotone(keys[1..], a, b);
    }
  }

  /** The score is monotone in the text: a text scores at least as much as
      any piece of it. */
  lemma ScoreMonotone(t: string, u: string)
    requires Contains(u, t)
    ensures CalcScore(t) <= CalcScore(u)
  {
    ContainsLower(u, t);
    CountPresentMonotone(Keywords, LowerStr(t), LowerStr(u));
  }

  /** Appending text, before or after, never lowers the score. */
  lemma ScoreAppendNeverLowers(t: string, extra: string)
    ensures CalcScore(t) <= CalcScore(t + extra)
    ensures CalcScore(t) <= CalcScore(extra + t)
  {
    ContainsParts(t, extra);
    ContainsParts(extra, t);
    ScoreMonotone(t, t + extra);
    ScoreMonotone(t, extra + t);
  }
}
