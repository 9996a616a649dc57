/** The string operations the name matcher relies on: ASCII lower-casing
    (Python's `str.lower`), substring search (Python's `in`) and removal of
    every occurrence of a pattern (Python's `str.replace(pat, "")`). */
module Text {

  predicate IsUpper(c: char) {
    'A' <= c <= 'Z'
  }

  /** Lower-cases one ASCII letter; every other character is left alone. */
  function LowerChar(c: char): (d: char)
    ensures !IsUpper(d)
    ensures !IsUpper(c) ==> d == c
    ensures IsUpper(c) ==> 'a' <= d <= 'z' && d as int - c as int == 'a' as int - 'A' as int
  {
    if IsUpper(c) then (c as int - 'A' as int + 'a' as int) as char else c
  }

  /** `s.lower()`, restricted to ASCII case. */
  function Lower(s: string): (r: string)
    ensures |r| == |s|
    ensures forall i :: 0 <= i < |r| ==> !IsUpper(r[i])
    ensures forall i :: 0 <= i < |s| && !IsUpper(s[i]) ==> r[i] == s[i]
    ensures forall i :: 0 <= i < |s| && IsUpper(s[i]) ==>
      r[i] as int == s[i] as int + ('a' as int - 'A' as int)
  {
    seq(|s|, i requires 0 <= i < |s| => LowerChar(s[i]))
  }

  /** A string without upper-case letters is its own lower-case form. */
  lemma LowerOfLowerCase(s: string)
    requires forall i :: 0 <= i < |s| ==> !IsUpper(s[i])
    ensures Lower(s) == s
  {
  }

  /** Lower-casing twice is lower-casing once. */
  lemma LowerIdempotent(s: string)
    ensures Lower(Lower(s)) == Lower(s)
  {
    LowerOfLowerCase(Lower(s));
  }

  /** Lower-casing distributes over concatenation. */
  lemma LowerAppend(a: string, b: string)
    ensures Lower(a + b) == Lower(a) + Lower(b)
  {
    var l, r := Lower(a + b), Lower(a) + Lower(b);
    assert |l| == |r|;
    forall i | 0 <= i < |l|
      ensures l[i] == r[i]
    {
      if i < |a| {
        assert (a + b)[i] == a[i];
      } else {
        assert (a + b)[i] == b[i - |a|];
      }
    }
  }

  /** Python's `sub in s`. */
  predicate Contains(s: string, sub: string) {
    exists i :: 0 <= i <= |s| && sub <= s[i..]
  }

  /** A string contains the pieces it is assembled from. */
  lemma ContainsPieces(a: string, b: string, c: string, d: string, e: string)
    ensures Contains(a + b + c + d + e, b) && Contains(a + b + c + d + e, d)
  {
    var s := a + b + c + d + e;
    assert s[|a|..][..|b|] == b;
    assert s[|a| + |b| + |c|..][..|d|] == d;
  }

  /** Python's `s.replace(pat, "")`: scanning left to right, every
      non-overlapping occurrence of `pat` is dropped; the text that remains is
      not scanned again. */
  function RemoveAll(s: string, pat: string): (r: string)
    requires pat != []
    ensures |r| <= |s|
    ensures !Contains(s, pat) ==> r == s
    decreases |s|
  {
    if |s| == 0 then []
    else if pat <= s then
      assert s[0..] == s;
      RemoveAll(s[|pat|..], pat)
    else
      (assert !Contains(s, pat) ==> !Contains(s[1..], pat) by {
         if Contains(s[1..], pat) {
           var i :| 0 <= i <= |s[1..]| && pat <= s[1..][i..];
           assert s[1..][i..] == s[i + 1..];
         }
       }
       [s[0]] + RemoveAll(s[1..], pat))
  }

  /** No proper prefix of `pat` is also a suffix of it, so two occurrences of
      `pat` can never overlap. */
  predicate BorderFree(pat: string) {
    forall k :: 0 < k < |pat| ==> pat[..k] != pat[|pat| - k..]
  }

  /** A pattern whose first character does not recur is border-free. */
  lemma UniqueHeadBorderFree(pat: string)
    requires pat != []
    requires forall j :: 0 < j < |pat| ==> pat[j] != pat[0]
    ensures BorderFree(pat)
  {
    forall k | 0 < k < |pat|
      ensures pat[..k] != pat[|pat| - k..]
    {
      assert pat[..k][0] == pat[0];
      assert pat[|pat| - k..][0] == pat[|pat| - k];
    }
  }

  /** Appending one occurrence of a border-free pattern does not change what
      `RemoveAll` leaves: the appended copy is removed and nothing before it is
      affected. */
  lemma {:induction false} RemoveAllAppendPattern(x: string, pat: string)
    requires pat != [] && BorderFree(pat)
    ensures RemoveAll(x + pat, pat) == RemoveAll(x, pat)
    decreases |x|
  {
    if |x| == 0 {
      assert x + pat == pat;
      assert pat[|pat|..] == [];
    } else if pat <= x {
      assert (x + pat)[..|pat|] == x[..|pat|];
      assert (x + pat)[|pat|..] == x[|pat|..] + pat;
      RemoveAllAppendPattern(x[|pat|..], pat);
    } else {
      NoStraddle(x, pat);
      assert (x + pat)[1..] == x[1..] + pat;
      RemoveAllAppendPattern(x[1..], pat);
    }
  }

  /** When `x` does not begin with a border-free `pat`, neither does `x + pat`:
      an occurrence straddling the join would be a border of `pat`. */
  lemma NoStraddle(x: string, pat: string)
    requires x != [] && pat != [] && BorderFree(pat)
    requires !(pat <= x)
    ensures !(pat <= x + pat)
  {
    if |x| >= |pat| {
      assert (x + pat)[..|pat|] == x[..|pat|];
    } else {
      var k := |pat| - |x|;
      assert pat[..k] != pat[|pat| - k..];
      assert forall j :: 0 <= j < k ==> (x + pat)[|x| + j] == pat[j];
    }
  }

  /** Where the pattern does not start, the first character is kept. */
  lemma RemoveAllStep(w: string, pat: string)
    requires pat != [] && w != [] && !(pat <= w)
    ensures RemoveAll(w, pat) == [w[0]] + RemoveAll(w[1..], pat)
  {
  }

  /** A string free of a pattern stays free of it after its first
      character is dropped. */
  lemma ContainsTail(x: string, pat: string)
    requires x != [] && !Contains(x, pat)
    ensures !Contains(x[1..], pat)
  {
  }

  /** No occurrence of a border-free pattern starts inside a pattern-free
      prefix `x`, whatever follows the copy of the pattern after it. */
  lemma NoOccurrenceAtStart(x: string, pat: string, y: string)
    requires x != [] && pat != [] && BorderFree(pat) && !Contains(x, pat)
    ensures !(pat <= x + pat + y)
  {
    assert x[0..] == x;
    NoStraddle(x, pat);
    assert (x + pat + y)[..|pat|] == (x + pat)[..|pat|];
  }

  /** Every occurrence is removed, wherever it sits: an occurrence following
      a pattern-free prefix is dropped and the prefix is kept as it is. */
  lemma {:induction false} RemoveAllSplit(x: string, pat: string, y: string)
    requires pat != [] && BorderFree(pat) && !Contains(x, pat)
    ensures RemoveAll(x + pat + y, pat) == x + RemoveAll(y, pat)
    decreases |x|
  {
    var w := x + pat + y;
    if |x| == 0 {
      assert w == pat + y;
      assert w[..|pat|] == pat;
      assert w[|pat|..] == y;
    } else {
      NoOccurrenceAtStart(x, pat, y);
      ContainsTail(x, pat);
      assert w[1..] == x[1..] + pat + y;
      calc {
        RemoveAll(w, pat);
        { RemoveAllStep(w, pat); }
        [w[0]] + RemoveAll(w[1..], pat);
        { RemoveAllSplit(x[1..], pat, y); }
        [x[0]] + (x[1..] + RemoveAll(y, pat));
        { assert x == [x[0]] + x[1..]; }
        x + RemoveAll(y, pat);
      }
    }
  }
}
