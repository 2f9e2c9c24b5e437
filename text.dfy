/**
 * The Python string operations the scraper applies to text: str.replace
 * with one-character arguments (replacing or deleting a character) and
 * str.strip() with no argument. str.split with a one-character separator
 * and counting a character are not called by the scraper; they are here to
 * state what its body text holds.
 */
module Text {

  /** ASCII whitespace as str.strip() sees it: \t \n \v \f \r, the separators 0x1C-0x1F and the space. */
  predicate IsSpace(c: char) {
    9 <= c as int <= 13 || 28 <= c as int <= 32
  }

  predicate AllSpace(s: string) {
    forall k :: 0 <= k < |s| ==> IsSpace(s[k])
  }

  /** Neither end of s is whitespace. */
  predicate Trimmed(s: string) {
    s == [] || (!IsSpace(s[0]) && !IsSpace(s[|s| - 1]))
  }

  /** Reference definition of strip(): r is a slice of s with only whitespace cut off on either side, and nothing more to cut. */
  ghost predicate IsStripOf(r: string, s: string) {
    Trimmed(r) &&
    exists i, j | 0 <= i <= j <= |s| :: r == s[i..j] && AllSpace(s[..i]) && AllSpace(s[j..])
  }

  /** The number of occurrences of x in s. */
  function Count(s: string, x: char): (n: nat)
    ensures n <= |s|
    ensures n == 0 <==> x !in s
  {
    if s == [] then 0 else (if s[0] == x then 1 else 0) + Count(s[1..], x)
  }

  lemma {:induction false} CountAppend(a: string, b: string, x: char)
    ensures Count(a + b, x) == Count(a, x) + Count(b, x)
  {
    if a != [] {
      assert (a + b)[1..] == a[1..] + b;
      CountAppend(a[1..], b, x);
    } else {
      assert a + b == b;
    }
  }

  /** s.replace(x, y) */
  function Replace(s: string, x: char, y: char): (r: string)
    ensures |r| == |s|
    ensures forall k :: 0 <= k < |s| ==> r[k] == if s[k] == x then y else s[k]
  {
    if s == [] then [] else [if s[0] == x then y else s[0]] + Replace(s[1..], x, y)
  }

  /** s.replace(x, ''): every x deleted, everything else kept. */
  function Delete(s: string, x: char): (r: string)
    ensures x !in r
    ensures forall c :: c != x ==> (c in r <==> c in s)
    ensures |r| == |s| - Count(s, x)
  {
    if s == [] then [] else (if s[0] == x then [] else [s[0]]) + Delete(s[1..], x)
  }

  /** Deleting works piece by piece: the kept characters stay in order and keep their multiplicity. */
  lemma {:induction false} DeleteAppend(a: string, b: string, x: char)
    ensures Delete(a + b, x) == Delete(a, x) + Delete(b, x)
    decreases |a|
  {
    if a == [] {
      assert a + b == b;
    } else {
      assert (a + b)[0] == a[0] && (a + b)[1..] == a[1..] + b;
      DeleteAppend(a[1..], b, x);
    }
  }

  /**
   * Deleting from one character: nothing when it is x, the character itself
   * otherwise. With DeleteAppend this determines Delete on every string.
   */
  lemma DeleteSingle(c: char, x: char)
    ensures Delete([c], x) == if c == x then [] else [c]
  {
    assert [c][1..] == [];
  }

  /** Each kept character lands at its position less the number of x before it. */
  lemma {:induction false} DeleteKeeps(s: string, x: char, k: nat)
    requires k < |s| && s[k] != x
    ensures k - Count(s[..k], x) < |Delete(s, x)|
    ensures Delete(s, x)[k - Count(s[..k], x)] == s[k]
  {
    var a, b := s[..k], s[k..];
    assert s == a + b;
    DeleteAppend(a, b, x);
    assert b == [s[k]] + b[1..];
    DeleteAppend([s[k]], b[1..], x);
    DeleteSingle(s[k], x);
    assert |Delete(a, x)| == k - Count(a, x);
  }

  lemma {:induction false} DeleteAbsent(s: string, x: char)
    requires x !in s
    ensures Delete(s, x) == s
  {
    if s != [] {
      assert x !in s[1..];
      DeleteAbsent(s[1..], x);
    }
  }

  /** The length of the whitespace run that starts s. */
  function LeadingSpaces(s: string): (k: nat)
    ensures k <= |s|
    ensures AllSpace(s[..k])
    ensures k < |s| ==> !IsSpace(s[k])
  {
    if s == [] || !IsSpace(s[0]) then 0 else 1 + LeadingSpaces(s[1..])
  }

  /** The length of the whitespace run that ends s. */
  function TrailingSpaces(s: string): (k: nat)
    ensures k <= |s|
    ensures AllSpace(s[|s| - k..])
    ensures k < |s| ==> !IsSpace(s[|s| - 1 - k])
  {
    if s == [] || !IsSpace(s[|s| - 1]) then 0
    else
      var k := TrailingSpaces(s[..|s| - 1]);
      SpaceRunGrows(s, k);
      1 + k
  }

  /** A whitespace run before a final whitespace character extends to the end. */
  lemma SpaceRunGrows(s: string, k: nat)
    requires s != [] && IsSpace(s[|s| - 1]) && k < |s|
    requires AllSpace(s[..|s| - 1][|s| - 1 - k..])
    ensures AllSpace(s[|s| - 1 - k..])
  {
    var t, u := s[..|s| - 1][|s| - 1 - k..], s[|s| - 1 - k..];
    forall m | 0 <= m < |u| ensures IsSpace(u[m]) {
      if m < k {
        assert u[m] == t[m];
      }
    }
  }

  /** s.strip() */
  function Strip(s: string): (r: string)
    ensures IsStripOf(r, s)
    ensures forall c :: c in r ==> c in s
  {
    var i := LeadingSpaces(s);
    var j := |s| - TrailingSpaces(s[i..]);
    assert s[j..] == s[i..][|s[i..]| - TrailingSpaces(s[i..])..];
    assert j > i ==> s[j - 1] == s[i..][|s[i..]| - 1 - TrailingSpaces(s[i..])];
    s[i..j]
  }

  lemma SpaceBefore(s: string, n: nat)
    requires n <= |s| && AllSpace(s[..n])
    ensures forall k :: 0 <= k < n ==> IsSpace(s[k])
  {
    forall k | 0 <= k < n ensures IsSpace(s[k]) {
      assert s[..n][k] == s[k];
    }
  }

  lemma SpaceFrom(s: string, n: nat)
    requires n <= |s| && AllSpace(s[n..])
    ensures forall k :: n <= k < |s| ==> IsSpace(s[k])
  {
    forall k | n <= k < |s| ensures IsSpace(s[k]) {
      assert s[n..][k - n] == s[k];
    }
  }

  /** Two candidate cuts that both leave a non-empty trimmed slice cut at the same places. */
  lemma SameCuts(s: string, i1: nat, j1: nat, i2: nat, j2: nat)
    requires i1 < j1 <= |s| && i2 < j2 <= |s|
    requires AllSpace(s[..i1]) && AllSpace(s[j1..]) && !IsSpace(s[i1]) && !IsSpace(s[j1 - 1])
    requires AllSpace(s[..i2]) && AllSpace(s[j2..]) && !IsSpace(s[i2]) && !IsSpace(s[j2 - 1])
    ensures i1 == i2 && j1 == j2
  {
    SameStart(s, i1, i2);
    SameEnd(s, j1, j2);
  }

  lemma SameStart(s: string, i1: nat, i2: nat)
    requires i1 < |s| && i2 < |s|
    requires AllSpace(s[..i1]) && !IsSpace(s[i1]) && AllSpace(s[..i2]) && !IsSpace(s[i2])
    ensures i1 == i2
  {
    SpaceBefore(s, i1);
    SpaceBefore(s, i2);
  }

  lemma SameEnd(s: string, j1: nat, j2: nat)
    requires 0 < j1 <= |s| && 0 < j2 <= |s|
    requires AllSpace(s[j1..]) && !IsSpace(s[j1 - 1]) && AllSpace(s[j2..]) && !IsSpace(s[j2 - 1])
    ensures j1 == j2
  {
    SpaceFrom(s, j1);
    SpaceFrom(s, j2);
  }

  /** An empty cut means s is all whitespace, so no other cut can keep a non-space. */
  lemma NoOtherCut(s: string, i1: nat, i2: nat, j2: nat)
    requires i1 <= |s| && AllSpace(s[..i1]) && AllSpace(s[i1..])
    requires i2 < j2 <= |s|
    ensures IsSpace(s[i2])
  {
    SpaceBefore(s, i1);
    SpaceFrom(s, i1);
  }

  /** The ends of a non-empty trimmed slice are not whitespace. */
  lemma TrimmedEnds(s: string, i: nat, j: nat)
    requires i < j <= |s| && Trimmed(s[i..j])
    ensures !IsSpace(s[i]) && !IsSpace(s[j - 1])
  {
    assert s[i..j][0] == s[i] && s[i..j][j - i - 1] == s[j - 1];
  }

  /** Two cuts of s with only whitespace outside and trimmed slices inside keep the same slice. */
  lemma CutsAgree(s: string, i1: nat, j1: nat, i2: nat, j2: nat)
    requires i1 <= j1 <= |s| && AllSpace(s[..i1]) && AllSpace(s[j1..]) && Trimmed(s[i1..j1])
    requires i2 <= j2 <= |s| && AllSpace(s[..i2]) && AllSpace(s[j2..]) && Trimmed(s[i2..j2])
    ensures s[i1..j1] == s[i2..j2]
  {
    if i1 < j1 {
      TrimmedEnds(s, i1, j1);
    }
    if i2 < j2 {
      TrimmedEnds(s, i2, j2);
    }
    if i1 == j1 {
      if i2 < j2 {
        NoOtherCut(s, i1, i2, j2);
        assert false;
      }
    } else if i2 == j2 {
      NoOtherCut(s, i2, i1, j1);
      assert false;
    } else {
      SameCuts(s, i1, j1, i2, j2);
    }
  }

  /** Two slices of s that each satisfy the reference definition of strip() are the same. */
  lemma StripOfUnique(s: string, r1: string, r2: string)
    requires IsStripOf(r1, s) && IsStripOf(r2, s)
    ensures r1 == r2
  {
    var i1, j1 :| 0 <= i1 <= j1 <= |s| && r1 == s[i1..j1] && AllSpace(s[..i1]) && AllSpace(s[j1..]);
    var i2, j2 :| 0 <= i2 <= j2 <= |s| && r2 == s[i2..j2] && AllSpace(s[..i2]) && AllSpace(s[j2..]);
    CutsAgree(s, i1, j1, i2, j2);
  }

  /** strip() has exactly one answer: any r that IsStripOf(r, s) is Strip(s). */
  lemma StripUnique(s: string, r: string)
    requires IsStripOf(r, s)
    ensures r == Strip(s)
  {
    StripOfUnique(s, r, Strip(s));
  }

  /** Stripping twice changes nothing more. */
  lemma StripIdempotent(s: string)
    ensures Strip(Strip(s)) == Strip(s)
  {
    var r := Strip(s);
    assert r == r[0..|r|] && AllSpace(r[..0]) && AllSpace(r[|r|..]);
    StripUnique(r, r);
  }

  /** s.split(sep) */
  function Split(s: string, sep: char): (parts: seq<string>)
    ensures |parts| == Count(s, sep) + 1
    ensures forall k :: 0 <= k < |parts| ==> sep !in parts[k]
  {
    if s == [] then [[]]
    else
      var rest := Split(s[1..], sep);
      if s[0] == sep then [[]] + rest else [[s[0]] + rest[0]] + rest[1..]
  }

  /** A separator-free string is a single piece. */
  lemma {:induction false} SplitPlain(p: string, sep: char)
    requires sep !in p
    ensures Split(p, sep) == [p]
  {
    if p != [] {
      assert sep !in p[1..];
      SplitPlain(p[1..], sep);
      assert [p[0]] + p[1..] == p;
    }
  }

  /** Appending a separator and a separator-free piece appends that piece to the split. */
  lemma {:induction false} SplitAppend(a: string, p: string, sep: char)
    requires sep !in p
    ensures Split(a + [sep] + p, sep) == Split(a, sep) + [p]
  {
    if a == [] {
      assert a + [sep] + p == [sep] + p;
      assert ([sep] + p)[1..] == p;
      SplitPlain(p, sep);
    } else {
      assert (a + [sep] + p)[1..] == a[1..] + [sep] + p;
      assert (a + [sep] + p)[0] == a[0];
      SplitAppend(a[1..], p, sep);
    }
  }
}
