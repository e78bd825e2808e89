/** A part of a sequence exchanged for another. */
module Sequences {

  /** The sequence with the elements from `i` up to `j` replaced. */
  function Replace<T>(s: seq<T>, i: nat, j: nat, mid: seq<T>): seq<T>
    requires i <= j <= |s|
  {
    s[..i] + mid + s[j..]
  }

  /** An element that is replaced does not matter. */
  lemma ReplaceUpdated<T>(s: seq<T>, i: nat, j: nat, mid: seq<T>, k: nat, x: T)
    requires i <= k < j <= |s|
    ensures Replace(s[k := x], i, j, mid) == Replace(s, i, j, mid)
  {
    assert s[k := x][..i] == s[..i] && s[k := x][j..] == s[j..];
  }

  /** A new element replaced once more, with the one before it. */
  lemma ReplaceAgain<T>(s: seq<T>, k: nat, j: nat, t: T, u: T)
    requires 0 < k < j <= |s|
    ensures var r := Replace(s, k, j, [t]);
            |r| > k && r[k - 1] == s[k - 1] && r[k] == t && Replace(r, k - 1, k + 1, [u]) == Replace(s, k - 1, j, [u])
  {
    var r := Replace(s, k, j, [t]);
    assert r[..k - 1] == s[..k - 1] && r[k + 1..] == s[j..];
  }

  /** Every two neighbours are related. */
  ghost predicate Adjacent<T>(s: seq<T>, r: (T, T) -> bool) {
    forall i, j :: 0 <= i < j < |s| && j == i + 1 ==> r(s[i], s[j])
  }

  /** A replacement keeps neighbours related when the new part's are, and at both its ends. */
  lemma ReplaceAdjacent<T>(s: seq<T>, i: nat, j: nat, mid: seq<T>, r: (T, T) -> bool)
    requires Adjacent(s, r) && Adjacent(mid, r) && i < j <= |s| && mid != []
    requires i > 0 ==> r(s[i - 1], mid[0])
    requires j < |s| ==> r(mid[|mid| - 1], s[j])
    ensures Adjacent(Replace(s, i, j, mid), r)
  {
    var t := Replace(s, i, j, mid);
    forall c, k | 0 <= c && k == c + 1 && k < |t| ensures r(t[c], t[k]) {
      if k < i {
        assert t[c] == s[k - 1] && t[k] == s[k];
      } else if k == i {
        assert t[c] == s[i - 1] && t[k] == mid[0];
      } else if k < i + |mid| {
        assert t[c] == mid[k - 1 - i] && t[k] == mid[k - i];
      } else if k == i + |mid| {
        assert t[c] == mid[|mid| - 1] && t[k] == s[j];
      } else {
        var d := k - i - |mid| + j;
        assert t[c] == s[d - 1] && t[k] == s[d];
      }
    }
  }
}
