/** Wide-string searching and case folding as the command line uses them:
    `std::wstring::find` for a substring, and `std::tolower` applied one
    character at a time. Strings are sequences of characters. */
module Text {

  datatype Option<T> = None | Some(value: T)

  /** `pat` sits in `s` starting at offset `p`. */
  predicate OccursAt(s: string, pat: string, p: nat)
  {
    p + |pat| <= |s| && s[p..p + |pat|] == pat
  }

  /** `pat` is a prefix of `s`. */
  predicate IsPrefix(pat: string, s: string)
  {
    |pat| <= |s| && s[..|pat|] == pat
  }

  /** Characters `k` and onward of `pat` agree with `s` from offset `p + k`:
      the comparison `find` makes at one candidate offset. */
  predicate MatchesAt(s: string, pat: string, p: nat, k: nat)
    decreases |pat| - k
  {
    k >= |pat| || (p + k < |s| && s[p + k] == pat[k] && MatchesAt(s, pat, p, k + 1))
  }

  lemma {:induction false} MatchesAtAgrees(s: string, pat: string, p: nat, k: nat)
    requires p + |pat| <= |s| && k <= |pat|
    ensures MatchesAt(s, pat, p, k) <==> forall j :: k <= j < |pat| ==> s[p + j] == pat[j]
    decreases |pat| - k
  {
    if k < |pat| {
      MatchesAtAgrees(s, pat, p, k + 1);
    }
  }

  /** The character comparison at offset `p` succeeds exactly when `pat`
      occurs there. */
  lemma MatchesAtIffOccurs(s: string, pat: string, p: nat)
    requires p + |pat| <= |s|
    ensures MatchesAt(s, pat, p, 0) <==> OccursAt(s, pat, p)
  {
    MatchesAtAgrees(s, pat, p, 0);
    if MatchesAt(s, pat, p, 0) {
      var w := s[p..p + |pat|];
      assert forall j :: 0 <= j < |pat| ==> w[j] == s[p + j];
    }
  }

  /** The first offset at or after `p` where `pat` occurs in `s`, or None
      (the wide-string `npos`). */
  function FindFrom(s: string, pat: string, p: nat): (r: Option<nat>)
    ensures r.Some? ==> p <= r.value && OccursAt(s, pat, r.value)
    ensures r.Some? ==> forall q :: p <= q < r.value ==> !OccursAt(s, pat, q)
    ensures r.None? ==> forall q :: p <= q ==> !OccursAt(s, pat, q)
    decreases |s| - p
  {
    if p + |pat| > |s| then None
    else
      MatchesAtIffOccurs(s, pat, p);
      if MatchesAt(s, pat, p, 0) then Some(p)
      else FindFrom(s, pat, p + 1)
  }

  /** `s.find(pat)`: the least offset at which `pat` occurs in `s`. */
  function Find(s: string, pat: string): (r: Option<nat>)
  {
    FindFrom(s, pat, 0)
  }

  /** Two offsets that both hold the first occurrence are the same offset:
      the result of `Find` is determined by the occurrences alone. */
  lemma {:induction false} FindIsLeastOccurrence(s: string, pat: string, p: nat)
    ensures Find(s, pat) == Some(p) <==> OccursAt(s, pat, p) && forall q :: 0 <= q < p ==> !OccursAt(s, pat, q)
  {
  }

  /** `s.find(pat) == 0` holds exactly when `pat` is a prefix of `s`. */
  lemma FindZeroIffPrefix(s: string, pat: string)
    ensures Find(s, pat) == Some(0) <==> IsPrefix(pat, s)
  {
    FindIsLeastOccurrence(s, pat, 0);
  }

  /** A string containing a character that `s` lacks can not occur in `s`. */
  lemma {:induction false} OccursCarriesCharacters(s: string, pat: string, p: nat, c: char)
    requires OccursAt(s, pat, p)
    requires c in pat
    ensures c in s
  {
    var k :| 0 <= k < |pat| && pat[k] == c;
    assert s[p + k] == s[p..p + |pat|][k];
  }

  /** A character of `pat` that `s` lacks keeps `pat` out of `s`. */
  lemma {:induction false} AbsentCharacter(s: string, pat: string, c: char)
    requires c in pat && c !in s
    ensures forall q :: !OccursAt(s, pat, q)
  {
    forall q | OccursAt(s, pat, q)
      ensures false
    {
      OccursCarriesCharacters(s, pat, q, c);
    }
  }

  /** One differing character at offset `q + j` rules out an occurrence at `q`. */
  lemma {:induction false} Mismatch(s: string, pat: string, q: nat, j: nat)
    requires j < |pat| && (q + j >= |s| || s[q + j] != pat[j])
    ensures !OccursAt(s, pat, q)
  {
    if q + |pat| <= |s| {
      assert s[q..q + |pat|][j] == s[q + j];
    }
  }

  /** When neither of two strings is a prefix of the other they can not
      both occur at the same offset. */
  lemma {:induction false} SameOffsetMeansPrefix(s: string, a: string, b: string, p: nat)
    requires OccursAt(s, a, p) && OccursAt(s, b, p)
    ensures IsPrefix(a, b) || IsPrefix(b, a)
  {
    if |a| <= |b| {
      assert b[..|a|] == s[p..p + |a|];
    } else {
      assert a[..|b|] == s[p..p + |b|];
    }
  }

  /** `std::tolower` on one character in the default "C" locale: only the
      ASCII capitals are mapped. */
  function ToLower(c: char): (r: char)
    ensures 'A' <= c <= 'Z' ==> 'a' <= r <= 'z' && r as int - c as int == 32
    ensures !('A' <= c <= 'Z') ==> r == c
  {
    if 'A' <= c <= 'Z' then (c as int + 32) as char else c
  }

  /** The whole line folded character by character. */
  function Lowercase(s: string): (r: string)
    ensures |r| == |s|
    ensures forall i :: 0 <= i < |s| ==> r[i] == ToLower(s[i])
  {
    seq(|s|, i requires 0 <= i < |s| => ToLower(s[i]))
  }

  /** Folding is idempotent, leaves no ASCII capital behind and keeps every
      space where it was. */
  lemma LowercaseProperties(s: string)
    ensures Lowercase(Lowercase(s)) == Lowercase(s)
    ensures forall i :: 0 <= i < |s| ==> !('A' <= Lowercase(s)[i] <= 'Z')
    ensures forall i :: 0 <= i < |s| ==> (Lowercase(s)[i] == ' ' <==> s[i] == ' ')
  {
  }
}
