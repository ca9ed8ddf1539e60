/** Where a pattern occurs in a byte string, and how much of it does. */
module Patterns {
  import opened Bytes

  ghost predicate OccursAt(text: seq<byte>, pattern: seq<byte>, k: int) {
    && 0 <= k
    && k + |pattern| <= |text|
    && text[k..k + |pattern|] == pattern
  }

  ghost predicate Occurs(text: seq<byte>, pattern: seq<byte>) {
    exists k :: OccursAt(text, pattern, k)
  }

  /** No occurrence starts before `limit`. */
  ghost predicate NoneBefore(text: seq<byte>, pattern: seq<byte>, limit: int) {
    forall k :: k < limit ==> !OccursAt(text, pattern, k)
  }

  ghost predicate IsFirst(text: seq<byte>, pattern: seq<byte>, k: int) {
    OccursAt(text, pattern, k) && NoneBefore(text, pattern, k)
  }

  /** Offset of the first occurrence, or -1. `FirstMeans` says so without the recursion. */
  ghost function First(text: seq<byte>, pattern: seq<byte>): (k: int)
    ensures k == -1 || 0 <= k <= |text| - |pattern|
  {
    FirstFrom(text, pattern, 0)
  }

  ghost function FirstFrom(text: seq<byte>, pattern: seq<byte>, k: nat): (r: int)
    ensures r == -1 || 0 <= r <= |text| - |pattern|
    decreases |text| - k
  {
    if OccursAt(text, pattern, k) then k
    else if k < |text| then FirstFrom(text, pattern, k + 1)
    else -1
  }

  lemma {:induction false} FirstFromMeans(text: seq<byte>, pattern: seq<byte>, k: nat)
    requires k <= |text| && NoneBefore(text, pattern, k)
    ensures var r := FirstFrom(text, pattern, k);
            if r == -1 then !Occurs(text, pattern) else IsFirst(text, pattern, r)
    decreases |text| - k
  {
    if !OccursAt(text, pattern, k) && k < |text| {
      FirstFromMeans(text, pattern, k + 1);
    }
  }

  /** `First` is -1 exactly when there is no occurrence, and otherwise an occurrence that none precedes. */
  lemma FirstMeans(text: seq<byte>, pattern: seq<byte>)
    ensures First(text, pattern) == -1 <==> !Occurs(text, pattern)
    ensures First(text, pattern) != -1 ==> IsFirst(text, pattern, First(text, pattern))
  {
    FirstFromMeans(text, pattern, 0);
    if First(text, pattern) != -1 {
      assert OccursAt(text, pattern, First(text, pattern));
    }
  }

  lemma FirstIs(text: seq<byte>, pattern: seq<byte>, k: int)
    requires IsFirst(text, pattern, k)
    ensures First(text, pattern) == k
  {
    FirstMeans(text, pattern);
    var r := First(text, pattern);
    assert Occurs(text, pattern);
    assert !(r < k) && !(k < r);
  }

  /** If a longer prefix of a pattern occurs, every shorter one occurs at the same place. */
  lemma PrefixOccurs(text: seq<byte>, pattern: seq<byte>, n: nat, m: nat, k: int)
    requires m <= n <= |pattern|
    requires OccursAt(text, pattern[..n], k)
    ensures OccursAt(text, pattern[..m], k)
  {
    assert text[k..k + m] == text[k..k + n][..m];
    assert pattern[..m] == pattern[..n][..m];
  }

  /** `n` is the length of the longest prefix of `pattern` found anywhere in `text`. */
  ghost predicate IsLongest(text: seq<byte>, pattern: seq<byte>, n: nat) {
    && n <= |pattern|
    && Occurs(text, pattern[..n])
    && forall m :: n < m <= |pattern| ==> !Occurs(text, pattern[..m])
  }

  /** The first prefix length that fails to occur settles the longest one. */
  lemma LongestFromFailure(text: seq<byte>, pattern: seq<byte>, n: nat)
    requires n < |pattern|
    requires Occurs(text, pattern[..n])
    requires !Occurs(text, pattern[..n + 1])
    ensures IsLongest(text, pattern, n)
  {
    forall m | n < m <= |pattern|
      ensures !Occurs(text, pattern[..m])
    {
      if Occurs(text, pattern[..m]) {
        var k :| OccursAt(text, pattern[..m], k);
        PrefixOccurs(text, pattern, m, n + 1, k);
      }
    }
  }

  /** Length of the longest prefix of `pattern` that occurs in `text`, looking no further than `bound`. */
  ghost function Longest(text: seq<byte>, pattern: seq<byte>, bound: nat): (n: nat)
    requires bound <= |pattern|
    ensures n <= bound
  {
    if bound == 0 || First(text, pattern[..bound]) != -1 then bound
    else Longest(text, pattern, bound - 1)
  }

  lemma {:induction false} LongestMeans(text: seq<byte>, pattern: seq<byte>, bound: nat)
    requires bound <= |pattern|
    requires forall m :: bound < m <= |pattern| ==> !Occurs(text, pattern[..m])
    ensures IsLongest(text, pattern, Longest(text, pattern, bound))
  {
    FirstMeans(text, pattern[..bound]);
    if bound == 0 {
      EmptyOccurs(text, pattern);
    } else if First(text, pattern[..bound]) == -1 {
      LongestMeans(text, pattern, bound - 1);
    }
  }

  /** Only one length can be the longest. */
  lemma LongestIs(text: seq<byte>, pattern: seq<byte>, n: nat)
    requires IsLongest(text, pattern, n)
    ensures Longest(text, pattern, |pattern|) == n
  {
    LongestMeans(text, pattern, |pattern|);
  }

  /** A bottom-up search may stop at the first prefix length that is not found. */
  lemma LongestFromFirst(text: seq<byte>, pattern: seq<byte>, n: nat)
    requires n <= |pattern|
    requires n == 0 || First(text, pattern[..n]) != -1
    requires n == |pattern| || First(text, pattern[..n + 1]) == -1
    ensures Longest(text, pattern, |pattern|) == n
  {
    FirstMeans(text, pattern[..n]);
    EmptyOccurs(text, pattern);
    if n < |pattern| {
      FirstMeans(text, pattern[..n + 1]);
      LongestFromFailure(text, pattern, n);
    }
    LongestIs(text, pattern, n);
  }

  /** The empty prefix occurs in every text. */
  lemma EmptyOccurs(text: seq<byte>, pattern: seq<byte>)
    ensures IsFirst(text, pattern[..0], 0) && Occurs(text, pattern[..0])
  {
    assert text[0..0] == pattern[..0];
    assert OccursAt(text, pattern[..0], 0);
  }

  /** A suffix of the text that is a prefix of the pattern is no longer than the longest prefix. */
  lemma SuffixIsBounded(text: seq<byte>, pattern: seq<byte>, n: nat, j: nat)
    requires IsLongest(text, pattern, n)
    requires j <= |text| && j <= |pattern|
    requires text[|text| - j..] == pattern[..j]
    ensures j <= n
  {
    assert text[|text| - j..|text| - j + j] == pattern[..j];
    assert OccursAt(text, pattern[..j], |text| - j);
  }

  /** A scan that has ruled out every start before `candidate` and matched `done` pattern bytes there. */
  ghost predicate Scanning(text: seq<byte>, pattern: seq<byte>, candidate: int, done: int) {
    && 0 <= done <= |pattern|
    && 0 <= candidate && candidate + done <= |text|
    && text[candidate..candidate + done] == pattern[..done]
    && NoneBefore(text, pattern, candidate)
  }

  lemma ScanMatch(text: seq<byte>, pattern: seq<byte>, candidate: int, done: int)
    requires Scanning(text, pattern, candidate, done)
    requires done < |pattern| && candidate + done < |text|
    requires text[candidate + done] == pattern[done]
    ensures Scanning(text, pattern, candidate, done + 1)
    ensures done + 1 == |pattern| ==> First(text, pattern) == candidate
  {
    assert text[candidate..candidate + done + 1] == text[candidate..candidate + done] + [pattern[done]];
    assert pattern[..done + 1] == pattern[..done] + [pattern[done]];
    if done + 1 == |pattern| {
      FirstIs(text, pattern, candidate);
    }
  }

  lemma ScanMismatch(text: seq<byte>, pattern: seq<byte>, candidate: int, done: int)
    requires Scanning(text, pattern, candidate, done)
    requires done < |pattern| && candidate + done < |text|
    requires text[candidate + done] != pattern[done]
    ensures Scanning(text, pattern, candidate + 1, 0)
  {
    assert text[candidate..][done] != pattern[done];
  }

  /** A scan that runs off the end before the pattern is complete has missed nothing. */
  lemma ScanEnd(text: seq<byte>, pattern: seq<byte>, candidate: int, done: int)
    requires Scanning(text, pattern, candidate, done)
    requires done < |pattern| && candidate + done == |text|
    ensures First(text, pattern) == -1
  {
    forall k
      ensures !OccursAt(text, pattern, k)
    {
    }
    FirstMeans(text, pattern);
  }
}
