/** Substring search with the failure function of Knuth, Morris and Pratt. */
module Kmp {
  type Text = seq<char>

  /** The first and the last k characters of s are the same, and k is less than its length. */
  ghost predicate Border(s: Text, k: nat) {
    k < |s| && s[..k] == s[|s| - k..]
  }

  /** No border is longer than this. */
  ghost predicate AtMost(s: Text, most: nat) {
    forall k: nat :: Border(s, k) ==> k <= most
  }

  /** k is the length of the longest border. */
  ghost predicate Longest(s: Text, k: nat) {
    Border(s, k) && AtMost(s, k)
  }

  ghost predicate Occurs(pat: Text, txt: Text, at: nat) {
    at + |pat| <= |txt| && txt[at..at + |pat|] == pat
  }

  // ----- borders

  /** A shorter border is a border of a longer one. */
  lemma {:induction false} BorderOfBorder(s: Text, a: nat, b: nat)
    requires Border(s, a) && b < a
    ensures Border(s, b) <==> Border(s[..a], b)
  {
    var t := s[..a];
    assert t[..b] == s[..b];
    assert t == s[|s| - a..];
    assert t[a - b..] == s[|s| - b..] by {
      assert s[|s| - a..][a - b..] == s[|s| - b..];
    }
  }

  /** A border of s with one more character is a border of s followed by the same character. */
  lemma {:induction false} BorderGrows(p: Text, i: nat, k: nat)
    requires 0 < i < |p| && k < i
    ensures Border(p[..i + 1], k + 1) <==> Border(p[..i], k) && p[k] == p[i]
  {
    var s, t := p[..i], p[..i + 1];
    assert t[..k + 1] == s[..k] + [p[k]];
    assert t[i - k..] == s[i - k..] + [p[i]];
    if Border(t, k + 1) {
      assert t[..k + 1] == t[i - k..];
      assert s[..k] == (s[..k] + [p[k]])[..k] == (s[i - k..] + [p[i]])[..k] == s[i - k..];
      assert p[k] == (s[..k] + [p[k]])[k] == (s[i - k..] + [p[i]])[k];
    }
  }

  lemma {:induction false} NoBorder(s: Text)
    requires s != []
    ensures Border(s, 0)
  {
    assert s[..0] == s[|s|..];
  }

  lemma {:induction false} TryNext(p: Text, i: nat, len: nat, next: nat)
    requires 0 < i < |p| && 0 < len && Border(p[..i], len) && AtMost(p[..i + 1], len + 1) && p[len] != p[i]
    requires Longest(p[..len], next)
    ensures Border(p[..i], next) && next < len && AtMost(p[..i + 1], next + 1)
  {
    assert p[..i][..len] == p[..len];
    BorderOfBorder(p[..i], len, next);
    var t := p[..i + 1];
    forall k: nat | Border(t, k) ensures k <= next + 1 {
      if k > 0 {
        BorderGrows(p, i, k - 1);
        if k - 1 < len { BorderOfBorder(p[..i], len, k - 1); }
      }
    }
  }

  lemma {:induction false} Extend(p: Text, i: nat, len: nat)
    requires 0 < i < |p| && Border(p[..i], len) && AtMost(p[..i + 1], len + 1) && p[len] == p[i]
    ensures Longest(p[..i + 1], len + 1)
  {
    BorderGrows(p, i, len);
  }

  lemma {:induction false} NothingExtends(p: Text, i: nat)
    requires 0 < i < |p| && AtMost(p[..i + 1], 1) && p[0] != p[i]
    ensures Longest(p[..i + 1], 0)
  {
    NoBorder(p[..i + 1]);
    var t := p[..i + 1];
    forall k: nat | Border(t, k) ensures k <= 0 {
      if k > 0 { BorderGrows(p, i, k - 1); }
    }
  }

  /** The longest border of a prefix is at most one longer than that of the prefix before. */
  lemma {:induction false} StartNext(p: Text, i: nat, len: nat)
    requires 0 < i < |p| && Longest(p[..i], len)
    ensures Border(p[..i], len) && AtMost(p[..i + 1], len + 1)
  {
    var t := p[..i + 1];
    forall k: nat | Border(t, k) ensures k <= len + 1 {
      if k > 0 { BorderGrows(p, i, k - 1); }
    }
  }

  /** computeLPSArray: entry i is the longest border of the prefix of length i + 1. */
  method ComputeLps(pat: Text, lps: array<nat>)
    requires pat != [] && lps.Length == |pat|
    modifies lps
    ensures forall i :: 0 <= i < |pat| ==> Longest(pat[..i + 1], lps[i])
  {
    hide Border, Longest, AtMost;
    var len: nat := 0;
    lps[0] := 0;
    One(pat);
    var i := 1;
    if i < |pat| { StartNext(pat, i, 0); }
    while i < |pat|
      invariant 1 <= i <= |pat|
      invariant forall k :: 0 <= k < i ==> Longest(pat[..k + 1], lps[k])
      invariant i < |pat| ==> len < i && Border(pat[..i], len) && AtMost(pat[..i + 1], len + 1)
      decreases |pat| - i, len
    {
      if pat[i] == pat[len] {
        Extend(pat, i, len);
        len := len + 1;
        lps[i] := len;
        i := i + 1;
        if i < |pat| { StartNext(pat, i, len); InPrefix(pat, i, len); }
      } else if len != 0 {
        TryNext(pat, i, len, lps[len - 1]);
        len := lps[len - 1];
      } else {
        NothingExtends(pat, i);
        lps[i] := 0;
        i := i + 1;
        if i < |pat| { StartNext(pat, i, 0); }
      }
    }
  }

  lemma {:induction false} InPrefix(p: Text, i: nat, len: nat)
    requires i <= |p| && Border(p[..i], len)
    ensures len < i
  {
  }

  lemma {:induction false} One(pat: Text)
    requires pat != []
    ensures Longest(pat[..1], 0)
  {
    NoBorder(pat[..1]);
  }

  // ----- the search

  /** The first j characters of the pattern end at i, and no occurrence starts earlier. */
  ghost predicate Scanned(pat: Text, txt: Text, i: nat, j: nat) {
    && j <= i <= |txt| && j <= |pat| && txt[i - j..i] == pat[..j]
    && forall at: nat :: at < i - j ==> !Occurs(pat, txt, at)
  }

  lemma {:induction false} StartScan(pat: Text, txt: Text)
    ensures Scanned(pat, txt, 0, 0)
  {
    assert txt[0..0] == pat[..0];
  }

  lemma {:induction false} MatchOne(pat: Text, txt: Text, i: nat, j: nat)
    requires Scanned(pat, txt, i, j) && i < |txt| && j < |pat| && pat[j] == txt[i]
    ensures Scanned(pat, txt, i + 1, j + 1)
  {
    assert txt[i + 1 - (j + 1)..i + 1] == txt[i - j..i] + [txt[i]];
    assert pat[..j + 1] == pat[..j] + [pat[j]];
  }

  lemma {:induction false} SkipOne(pat: Text, txt: Text, i: nat)
    requires Scanned(pat, txt, i, 0) && i < |txt| && pat != [] && pat[0] != txt[i]
    ensures Scanned(pat, txt, i + 1, 0)
  {
    assert txt[i + 1..i + 1] == pat[..0];
    assert i + |pat| <= |txt| ==> txt[i..i + |pat|][0] == txt[i];
  }

  /** An occurrence inside the matched part would be a border of it. */
  lemma {:induction false} OccurrenceIsBorder(pat: Text, txt: Text, i: nat, j: nat, at: nat)
    requires Scanned(pat, txt, i, j) && j < |pat| && i - j < at <= i && Occurs(pat, txt, at)
    ensures Border(pat[..j], i - at)
  {
    var k := i - at;
    var m := pat[..j];
    assert txt[at..i] == txt[at..at + |pat|][..k] == pat[..k];
    assert txt[at..i] == txt[i - j..i][j - k..] == m[j - k..];
    assert m[..k] == pat[..k];
  }

  lemma {:induction false} FallBack(pat: Text, txt: Text, i: nat, j: nat, next: nat)
    requires Scanned(pat, txt, i, j) && 0 < j < |pat| && i < |txt| && pat[j] != txt[i] && Longest(pat[..j], next)
    ensures next < j && Scanned(pat, txt, i, next)
  {
    var m := pat[..j];
    assert txt[i - next..i] == txt[i - j..i][j - next..] == m[j - next..] == m[..next] == pat[..next];
    forall at: nat | at < i - next ensures !Occurs(pat, txt, at) {
      assert at == i - j && at + |pat| <= |txt| ==> txt[at..at + |pat|][j] == txt[i];
      if at > i - j {
        if Occurs(pat, txt, at) { OccurrenceIsBorder(pat, txt, i, j, at); }
      }
    }
  }

  /** KMPSearch: whether the pattern occurs in the text. */
  method Search(txt: Text, pat: Text, lps: array<nat>) returns (found: bool)
    requires pat != [] && lps.Length == |pat| && forall i :: 0 <= i < |pat| ==> Longest(pat[..i + 1], lps[i])
    ensures found <==> exists at: nat :: Occurs(pat, txt, at)
  {
    hide Scanned, Longest, Occurs;
    var n, m := |txt|, |pat|;
    var i, j := 0, 0;
    StartScan(pat, txt);
    while n - i >= m - j
      invariant 0 <= i <= n && 0 <= j < m && Scanned(pat, txt, i, j)
      decreases 2 * (n - i) + j
    {
      if pat[j] == txt[i] {
        MatchOne(pat, txt, i, j);
        i, j := i + 1, j + 1;
      }
      if j == m {
        FullMatch(pat, txt, i);
        return true;
      } else if i < n && pat[j] != txt[i] {
        if j != 0 {
          FallBack(pat, txt, i, j, lps[j - 1]);
          j := lps[j - 1];
        } else {
          SkipOne(pat, txt, i);
          i := i + 1;
        }
      }
    }
    TooShort(pat, txt, i, j);
    found := false;
  }

  lemma {:induction false} FullMatch(pat: Text, txt: Text, i: nat)
    requires Scanned(pat, txt, i, |pat|)
    ensures i >= |pat| && Occurs(pat, txt, i - |pat|)
  {
    assert pat[..|pat|] == pat;
  }

  lemma {:induction false} TooShort(pat: Text, txt: Text, i: nat, j: nat)
    requires Scanned(pat, txt, i, j) && |txt| - i < |pat| - j
    ensures forall at: nat :: !Occurs(pat, txt, at)
  {
  }
}
