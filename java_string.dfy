/** The few java.lang.String operations the server uses, over `string`
    (a sequence of characters). */
module JavaString {
  import opened Wrappers

  /** `p` occurs in `s` starting at index `k`. */
  ghost predicate OccursAt(s: string, p: string, k: int)
  {
    0 <= k && k + |p| <= |s| && s[k..k + |p|] == p
  }

  /** `k` is the least index at or after `from` where `p` occurs in `s`. */
  ghost predicate FirstAt(s: string, p: string, from: int, k: int)
  {
    from <= k && OccursAt(s, p, k) &&
    forall j :: from <= j < k ==> !OccursAt(s, p, j)
  }

  /** `p` does not occur in `s` at any index at or after `from`. */
  ghost predicate AbsentFrom(s: string, p: string, from: int)
  {
    forall j :: from <= j ==> !OccursAt(s, p, j)
  }

  /** A one-character pattern occurs exactly where that character stands. */
  lemma OccursAtChar(s: string, c: char, k: int)
    ensures OccursAt(s, [c], k) <==> 0 <= k < |s| && s[k] == c
  {
    if 0 <= k < |s| {
      assert s[k..k + 1] == [s[k]];
    }
  }

  /** `s.indexOf(p, from)`: the least index at or after `from` where `p`
      occurs, or None where Java returns -1. */
  function IndexOf(s: string, p: string, from: nat): (r: Option<nat>)
    requires p != []
    ensures r.Some? ==> FirstAt(s, p, from, r.value)
    ensures r.None? ==> AbsentFrom(s, p, from)
    decreases |s| - from
  {
    if from + |p| > |s| then None
    else if s[from..from + |p|] == p then Some(from)
    else IndexOf(s, p, from + 1)
  }

  /** The least occurrence is unique, so FirstAt determines IndexOf. */
  lemma IndexOfFirstAt(s: string, p: string, from: nat, k: int)
    requires p != []
    ensures IndexOf(s, p, from) == Some(k) <==> FirstAt(s, p, from, k)
  {
  }

  /** `s.startsWith(p)`. */
  predicate StartsWith(s: string, p: string)
  {
    |p| <= |s| && s[..|p|] == p
  }

  /** `s.replace(target, replacement)` for a one-character target: every
      occurrence of `c`, scanned from the left, becomes `rep`; for a target
      of one character the non-overlapping occurrences Java replaces are
      all of its occurrences. */
  function ReplaceChar(s: string, c: char, rep: string): string
  {
    if s == [] then []
    else (if s[0] == c then rep else [s[0]]) + ReplaceChar(s[1..], c, rep)
  }

  /** Replacing distributes over concatenation. */
  lemma {:induction false} ReplaceCharConcat(a: string, b: string, c: char, rep: string)
    ensures ReplaceChar(a + b, c, rep) == ReplaceChar(a, c, rep) + ReplaceChar(b, c, rep)
  {
    if a == [] {
      assert a + b == b;
    } else {
      assert (a + b)[0] == a[0];
      assert (a + b)[1..] == a[1..] + b;
      ReplaceCharConcat(a[1..], b, c, rep);
    }
  }

  /** A string without `c` is left unchanged. */
  lemma {:induction false} ReplaceCharAbsent(s: string, c: char, rep: string)
    requires c !in s
    ensures ReplaceChar(s, c, rep) == s
  {
    if s != [] {
      assert c !in s[1..];
      ReplaceCharAbsent(s[1..], c, rep);
    }
  }
}
