/** Strings as the Go library sees them: white space, trimming, and comparison without regard to case. */
module Text {

  /** White space as Unicode defines it. */
  predicate IsSpace(c: char) {
    || c in {'\t', '\n', '\U{000B}', '\U{000C}', '\r', ' ', '\U{0085}', '\U{00A0}', '\U{1680}'}
    || '\U{2000}' <= c <= '\U{200A}'
    || c in {'\U{2028}', '\U{2029}', '\U{202F}', '\U{205F}', '\U{3000}'}
  }

  function TrimLeft(s: string): string {
    if |s| > 0 && IsSpace(s[0]) then TrimLeft(s[1..]) else s
  }

  function TrimRight(s: string): string {
    if |s| > 0 && IsSpace(s[|s| - 1]) then TrimRight(s[..|s| - 1]) else s
  }

  function Trim(s: string): string {
    TrimRight(TrimLeft(s))
  }

  predicate IsTrimmed(s: string) {
    |s| > 0 ==> !IsSpace(s[0]) && !IsSpace(s[|s| - 1])
  }

  lemma {:induction false} TrimLeftDrops(s: string) returns (k: nat)
    ensures k <= |s| && TrimLeft(s) == s[k..] && (forall i :: 0 <= i < k ==> IsSpace(s[i]))
    ensures k < |s| ==> !IsSpace(s[k])
  {
    if |s| > 0 && IsSpace(s[0]) {
      var j := TrimLeftDrops(s[1..]);
      k := j + 1;
    } else {
      k := 0;
    }
  }

  lemma {:induction false} TrimRightDrops(s: string) returns (k: nat)
    ensures k <= |s| && TrimRight(s) == s[..k] && (forall i :: k <= i < |s| ==> IsSpace(s[i]))
    ensures k > 0 ==> !IsSpace(s[k - 1])
  {
    if |s| > 0 && IsSpace(s[|s| - 1]) {
      k := TrimRightDrops(s[..|s| - 1]);
    } else {
      k := |s|;
    }
  }

  /** What is left has no white space at its ends, and only white space was taken away. */
  lemma TrimMeaning(s: string)
    ensures IsTrimmed(Trim(s)) && Trim(Trim(s)) == Trim(s)
    ensures exists i, j :: 0 <= i <= j <= |s| && Trim(s) == s[i..j]
              && (forall k :: 0 <= k < i || j <= k < |s| ==> IsSpace(s[k]))
    ensures Trim(s) == "" <==> forall k :: 0 <= k < |s| ==> IsSpace(s[k])
  {
    var i := TrimLeftDrops(s);
    var n := TrimRightDrops(s[i..]);
    assert Trim(s) == s[i..i + n];
    assert forall k :: i + n <= k < |s| ==> s[k] == s[i..][k - i];
  }

  /** ASCII letters only; no letter of the words that are looked for has other forms. */
  function Folded(c: char): char {
    if 'A' <= c <= 'Z' then c + 32 as char else c
  }

  predicate EqualFold(s: string, t: string) {
    |s| == |t| && forall k :: 0 <= k < |s| ==> Folded(s[k]) == Folded(t[k])
  }

  /** Two characters fold alike if they are the same, or the two cases of one ASCII letter. */
  lemma FoldMeaning(a: char, b: char)
    ensures Folded(a) == Folded(b) <==> a == b || ('A' <= a <= 'Z' && b as int == a as int + 32) || ('A' <= b <= 'Z' && a as int == b as int + 32)
  {
  }

  /** Comparison without regard to case, position by position. */
  lemma EqualFoldMeaning(s: string, t: string)
    ensures EqualFold(s, t) <==>
            |s| == |t| && forall k :: 0 <= k < |s| ==>
              s[k] == t[k] || ('A' <= s[k] <= 'Z' && t[k] as int == s[k] as int + 32) || ('A' <= t[k] <= 'Z' && s[k] as int == t[k] as int + 32)
  {
    if |s| == |t| {
      forall k | 0 <= k < |s|
        ensures Folded(s[k]) == Folded(t[k]) <==>
                s[k] == t[k] || ('A' <= s[k] <= 'Z' && t[k] as int == s[k] as int + 32) || ('A' <= t[k] <= 'Z' && s[k] as int == t[k] as int + 32)
      {
        FoldMeaning(s[k], t[k]);
      }
    }
    hide Folded;
  }
}
