/** What ignoring case means, letter by letter. */
module Letters {
  import opened Config

  const UPPER := "ABCDEFGHIJKLMNOPQRSTUVWXYZ"
  const LOWER := "abcdefghijklmnopqrstuvwxyz"

  predicate CasePair(upper: string, lower: string, c: char, d: char) {
    exists i :: 0 <= i < |upper| && 0 <= i < |lower| && upper[i] == c && lower[i] == d
  }

  /** The same character, or the two cases of one letter. */
  predicate SameLetter(c: char, d: char) {
    c == d || CasePair(UPPER, LOWER, c, d) || CasePair(UPPER, LOWER, d, c)
  }

  lemma Alphabet(i: nat)
    requires i < 26
    ensures UPPER[i] as int == 'A' as int + i && LOWER[i] as int == 'a' as int + i
  {
  }

  lemma PairsFold(upper: string, lower: string, c: char, d: char)
    requires |upper| == |lower| == 26
    requires forall i :: 0 <= i < 26 ==> upper[i] as int == 'A' as int + i && lower[i] as int == 'a' as int + i
    ensures CasePair(upper, lower, c, d) <==> 'A' <= c <= 'Z' && d as int == c as int + 32
  {
    if 'A' <= c <= 'Z' && d as int == c as int + 32 {
      assert upper[c as int - 65] == c && lower[c as int - 65] == d;
    }
  }

  /** Each letter pair folds together and nothing else does, upward and downward. */
  lemma FoldsExactly(c: char, d: char)
    ensures UpperChar(c) == UpperChar(d) <==> SameLetter(c, d)
    ensures LowerChar(c) == LowerChar(d) <==> SameLetter(c, d)
  {
    forall i | 0 <= i < 26
      ensures UPPER[i] as int == 'A' as int + i && LOWER[i] as int == 'a' as int + i
    {
      Alphabet(i);
    }
    PairsFold(UPPER, LOWER, c, d);
    PairsFold(UPPER, LOWER, d, c);
  }

  /** Upper-casing leaves no lower-case letter and lower-casing no upper-case one; other characters stay. */
  lemma CasesAreKept(i: nat, c: char)
    requires i < 26
    ensures UpperChar(LOWER[i]) == UPPER[i] == UpperChar(UPPER[i])
    ensures LowerChar(UPPER[i]) == LOWER[i] == LowerChar(LOWER[i])
    ensures c !in LOWER ==> UpperChar(c) == c
    ensures c !in UPPER ==> LowerChar(c) == c
  {
    Alphabet(i);
    if 'a' <= c <= 'z' {
      Alphabet(c as int - 97);
    }
    if 'A' <= c <= 'Z' {
      Alphabet(c as int - 65);
    }
  }

  /** Texts are equal ignoring case exactly when they are letter by letter. */
  lemma EqualFoldExactly(a: string, b: string)
    ensures EqualFold(a, b) <==> |a| == |b| && forall i :: 0 <= i < |a| ==> SameLetter(a[i], b[i])
    ensures ToLower(a) == ToLower(b) <==> EqualFold(a, b)
  {
    if |a| == |b| {
      forall i | 0 <= i < |a|
        ensures ToUpper(a)[i] == ToUpper(b)[i] <==> SameLetter(a[i], b[i])
        ensures ToLower(a)[i] == ToLower(b)[i] <==> SameLetter(a[i], b[i])
      {
        FoldsExactly(a[i], b[i]);
      }
    } else {
      assert |ToUpper(a)| == |a| && |ToUpper(b)| == |b| && |ToLower(a)| == |a| && |ToLower(b)| == |b|;
    }
  }
}
