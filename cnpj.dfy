/** The registration-number extractor (`extract_cnpj`): the first match of
    the pattern `\d{2}\.\d{3}\.\d{3}/\d{4}-\d{2}`, the Brazilian CNPJ layout
    `NN.NNN.NNN/NNNN-NN`. The pattern has a fixed length and no
    alternation, so a match is an 18-character window and the first match is
    the matching window that starts leftmost. */
module Cnpj {
  import opened Strings

  const CnpjLength := 18

  predicate IsDigit(c: char) {
    '0' <= c <= '9'
  }

  /** Whether character `c` fits position `j` of the layout: a dot at 2 and
      6, a slash at 10, a hyphen at 15 and a digit everywhere else. */
  predicate FitsSlot(j: int, c: char) {
    if j == 2 || j == 6 then c == '.'
    else if j == 10 then c == '/'
    else if j == 15 then c == '-'
    else IsDigit(c)
  }

  /** `w` is a CNPJ in the layout `NN.NNN.NNN/NNNN-NN`. */
  predicate IsCnpj(w: string) {
    |w| == CnpjLength && forall j | 0 <= j < CnpjLength :: FitsSlot(j, w[j])
  }

  /** The pattern matches `s` at index `i`. */
  predicate MatchesAt(s: string, i: int) {
    0 <= i && i + CnpjLength <= |s| && IsCnpj(s[i..i + CnpjLength])
  }

  /** Leftmost index at or after `i` where the pattern matches, as
      `re.search` scans. */
  function FindFrom(s: string, i: nat): (r: Option<nat>)
    requires i <= |s|
    ensures r.None? <==> forall j | i <= j :: !MatchesAt(s, j)
    ensures r.Some? ==> i <= r.value && MatchesAt(s, r.value)
    ensures r.Some? ==> forall j | i <= j < r.value :: !MatchesAt(s, j)
    decreases |s| - i
  {
    if |s| < i + CnpjLength then None
    else if IsCnpj(s[i..i + CnpjLength]) then assert MatchesAt(s, i); Some(i)
    else FindFrom(s, i + 1)
  }

  /** `extract_cnpj(text)`: the text of the leftmost match, or None. */
  function ExtractCnpj(text: string): (r: Option<string>)
    ensures r.None? <==> forall i :: !MatchesAt(text, i)
    ensures r.Some? ==> IsCnpj(r.value)
    ensures r.Some? ==> exists i :: MatchesAt(text, i) && r.value == text[i..i + CnpjLength]
                                    && forall j | 0 <= j < i :: !MatchesAt(text, j)
  {
    match FindFrom(text, 0)
    case None => None
    case Some(i) => Some(text[i..i + CnpjLength])
  }

  /** A CNPJ on its own is extracted unchanged. */
  lemma ExtractWhole(c: string)
    requires IsCnpj(c)
    ensures ExtractCnpj(c) == Some(c)
  {
    assert c[0..CnpjLength] == c;
    assert MatchesAt(c, 0);
  }

  /** A window that starts 1 to 15 characters before an embedded CNPJ
      overlaps one of its digits, or its dot at 2, with a separator slot
      that needs a different character, so it does not match. */
  lemma NoMatchOverlappingFront(s: string, p: nat, k: nat)
    requires p + CnpjLength <= |s| && IsCnpj(s[p..p + CnpjLength])
    requires 1 <= k <= 15 && k <= p
    ensures !MatchesAt(s, p - k)
  {
    var c := s[p..p + CnpjLength];
    // the separator slot of the earlier window that lands on `c`
    var slot := if k <= 2 then 2 else if k <= 6 && k != 4 then 6 else if k <= 10 && k != 8 then 10 else 15;
    assert 0 <= slot - k < CnpjLength;
    assert s[p - k + slot] == c[slot - k];
    assert FitsSlot(slot - k, c[slot - k]);
    assert !FitsSlot(slot, s[p - k + slot]);
    assert s[p - k..p - k + CnpjLength][slot] == s[p - k + slot];
  }

  /** A CNPJ written after text that holds none, and whose last character
      is neither a digit nor a hyphen (a space, a colon, a line break), is
      the one extracted, whatever follows it. */
  lemma {:induction false} ExtractEmbedded(pre: string, c: string, post: string)
    requires IsCnpj(c)
    requires ExtractCnpj(pre) == None
    requires pre != [] ==> !IsDigit(pre[|pre| - 1]) && pre[|pre| - 1] != '-'
    ensures ExtractCnpj(pre + c + post) == Some(c)
  {
    var s := pre + c + post;
    var p := |pre|;
    assert s[p..p + CnpjLength] == c;
    assert MatchesAt(s, p);
    forall j | 0 <= j < p
      ensures !MatchesAt(s, j)
    {
      if j + CnpjLength <= p {
        assert s[j..j + CnpjLength] == pre[j..j + CnpjLength];
        assert !MatchesAt(pre, j);
      } else if p - j <= 15 {
        NoMatchOverlappingFront(s, p, p - j);
      } else {
        // the window's slot p - 1 - j, which is 15 or 16, holds pre's last character
        assert s[j..j + CnpjLength][p - 1 - j] == pre[p - 1];
      }
    }
    var r := FindFrom(s, 0);
    assert r == Some(p);
  }

  /** The match is leftmost, not the longest run of CNPJ-like text: after a
      prefix that itself ends like a CNPJ's first sixteen characters, the
      window straddling the two is extracted. */
  lemma LeftmostOverlap()
    ensures ExtractCnpj("12.345.678/9012-12.345.678/9012-34") == Some("12.345.678/9012-12")
  {
    var s := "12.345.678/9012-12.345.678/9012-34";
    assert s[0..CnpjLength] == "12.345.678/9012-12";
    assert MatchesAt(s, 0);
  }
}
