/** Keywords and names, compared without regard to case. */
module Words {
  function Upper(c: char): char {
    if 'a' <= c <= 'z' then 'A' + (c - 'a') else c
  }

  /** `equalsIgnoreCase` */
  predicate SameWord(a: string, b: string) {
    |a| == |b| && forall i :: 0 <= i < |a| ==> Upper(a[i]) == Upper(b[i])
  }

  /** Equal characters, or the two cases of one letter. */
  predicate SameLetter(a: char, b: char) {
    || a == b
    || ('a' <= a <= 'z' && b as int == a as int - 32)
    || ('a' <= b <= 'z' && a as int == b as int - 32)
  }

  lemma SameWordMeans(a: string, b: string)
    ensures SameWord(a, b) <==> |a| == |b| && forall i :: 0 <= i < |a| ==> SameLetter(a[i], b[i])
  {
    forall i | 0 <= i < |a| && i < |b| ensures Upper(a[i]) == Upper(b[i]) <==> SameLetter(a[i], b[i]) {
    }
  }
}
