/** The handful of Python `str` operations the bot's answer pipeline relies on:
    `split()` and `strip()` without arguments, `sep.join(parts)`, `find` and
    `replace(old, "")`. Strings are sequences of Unicode code points, as Python's
    `str` is, so `len` is `|s|`.
 */
module Strings {

  datatype Option<+T> = None | Some(value: T)

  /** Python's `str.isspace` on one character: the characters that `split()` and
      `strip()` treat as whitespace when called without an argument. */
  predicate IsSpace(c: char) {
    var n := c as int;
    || (0x09 <= n <= 0x0D) || (0x1C <= n <= 0x20) || n == 0x85 || n == 0xA0
    || n == 0x1680 || (0x2000 <= n <= 0x200A) || n == 0x2028 || n == 0x2029
    || n == 0x202F || n == 0x205F || n == 0x3000
  }

  predicate NoSpace(s: string) {
    forall i :: 0 <= i < |s| ==> !IsSpace(s[i])
  }

  predicate AllSpace(s: string) {
    forall i :: 0 <= i < |s| ==> IsSpace(s[i])
  }

  /** A word as `split()` yields it: non-empty and free of whitespace. */
  predicate IsWord(w: string) {
    |w| > 0 && NoSpace(w)
  }

  predicate AllWords(ws: seq<string>) {
    forall i :: 0 <= i < |ws| ==> IsWord(ws[i])
  }

  /** No leading or trailing whitespace, and every whitespace character is a
      single ASCII space standing between two non-whitespace characters. */
  predicate Normalized(s: string) {
    forall i :: 0 <= i < |s| && IsSpace(s[i]) ==>
      && s[i] == ' '
      && 0 < i < |s| - 1
      && !IsSpace(s[i + 1])
  }

  /** The characters of `s` that are not whitespace, in order. */
  function NonSpace(s: string): (r: string)
    ensures NoSpace(r)
    ensures |r| <= |s|
  {
    if |s| == 0 then ""
    else if IsSpace(s[0]) then NonSpace(s[1..])
    else [s[0]] + NonSpace(s[1..])
  }

  // ---------------------------------------------------------------------------
  // split()

  /** The longest prefix of `s` that holds no whitespace. */
  function LeadingWord(s: string): (w: string)
    ensures w <= s
    ensures NoSpace(w)
    ensures |w| == |s| || IsSpace(s[|w|])
  {
    if |s| == 0 || IsSpace(s[0]) then "" else [s[0]] + LeadingWord(s[1..])
  }

  /** `s.split()`: the maximal runs of non-whitespace characters, in order. */
  function Split(s: string): (ws: seq<string>)
    ensures AllWords(ws)
    decreases |s|
  {
    if |s| == 0 then []
    else if IsSpace(s[0]) then Split(s[1..])
    else
      var w := LeadingWord(s);
      [w] + Split(s[|w|..])
  }

  /** No word is longer than the string it was split from. */
  lemma {:induction false} SplitWordLength(s: string)
    ensures forall w :: w in Split(s) ==> |w| <= |s|
    decreases |s|
  {
    if |s| > 0 {
      if IsSpace(s[0]) {
        SplitWordLength(s[1..]);
      } else {
        SplitWordLength(s[|LeadingWord(s)|..]);
      }
    }
  }

  /** Any maximal whitespace-free prefix is the one LeadingWord finds. */
  lemma LeadingWordUnique(s: string, w: string)
    requires w <= s && NoSpace(w)
    requires |w| == |s| || IsSpace(s[|w|])
    ensures LeadingWord(s) == w
  {
    var v := LeadingWord(s);
    assert |v| == |w|;
  }

  /** A single word splits into itself. */
  lemma SplitWord(w: string)
    requires IsWord(w)
    ensures Split(w) == [w]
  {
    LeadingWordUnique(w, w);
    assert w[|w|..] == [];
  }

  /** Splitting at a whitespace character splits the two sides independently. */
  lemma {:induction false} SplitAtSpace(a: string, c: char, b: string)
    requires IsSpace(c)
    ensures Split(a + [c] + b) == Split(a) + Split(b)
    decreases |a|
  {
    var s := a + [c] + b;
    if |a| == 0 {
      assert s[1..] == b;
    } else if IsSpace(a[0]) {
      assert s[1..] == a[1..] + [c] + b;
      SplitAtSpace(a[1..], c, b);
    } else {
      var w := LeadingWord(a);
      assert w <= s;
      LeadingWordUnique(s, w);
      assert s[|w|..] == a[|w|..] + [c] + b;
      SplitAtSpace(a[|w|..], c, b);
    }
  }

  /** A string has no words exactly when it is all whitespace (the empty string included). */
  lemma {:induction false} SplitEmptyIffAllSpace(s: string)
    ensures Split(s) == [] <==> AllSpace(s)
    decreases |s|
  {
    if |s| > 0 && IsSpace(s[0]) {
      SplitEmptyIffAllSpace(s[1..]);
      if AllSpace(s[1..]) {
        forall i | 0 <= i < |s|
          ensures IsSpace(s[i])
        {
          if i > 0 { assert s[i] == s[1..][i - 1]; }
        }
      }
    }
  }

  /** `split()` drops whitespace and nothing else: gluing the words back together
      gives the non-whitespace characters of the input, in order. */
  lemma {:induction false} SplitKeepsText(s: string)
    ensures Join("", Split(s)) == NonSpace(s)
    decreases |s|
  {
    if |s| == 0 {
    } else if IsSpace(s[0]) {
      SplitKeepsText(s[1..]);
    } else {
      var w := LeadingWord(s);
      var rest := s[|w|..];
      SplitKeepsText(rest);
      assert s == w + rest;
      NonSpaceAppend(w, rest);
      NonSpaceOfWord(w);
      var tail := Split(rest);
      if |tail| == 0 {
        assert Join("", [w] + tail) == w;
      } else {
        assert ([w] + tail)[1..] == tail;
      }
    }
  }

  lemma {:induction false} NonSpaceAppend(a: string, b: string)
    ensures NonSpace(a + b) == NonSpace(a) + NonSpace(b)
    decreases |a|
  {
    if |a| > 0 {
      assert (a + b)[1..] == a[1..] + b;
      NonSpaceAppend(a[1..], b);
    } else {
      assert a + b == b;
    }
  }

  lemma {:induction false} NonSpaceOfWord(w: string)
    requires NoSpace(w)
    ensures NonSpace(w) == w
    decreases |w|
  {
    if |w| > 0 {
      NonSpaceOfWord(w[1..]);
      assert w == [w[0]] + w[1..];
    }
  }

  // ---------------------------------------------------------------------------
  // sep.join(parts)

  /** `sep.join(parts)`: it begins with the first part. */
  function Join(sep: string, parts: seq<string>): (r: string)
    ensures |parts| == 0 ==> r == ""
    ensures |parts| > 0 ==> parts[0] <= r
    decreases |parts|
  {
    if |parts| == 0 then ""
    else if |parts| == 1 then parts[0]
    else parts[0] + sep + Join(sep, parts[1..])
  }

  /** A character that occurs in neither the separator nor any part does not
      occur in the joined string. */
  lemma {:induction false} JoinAvoids(sep: string, parts: seq<string>, c: char)
    requires c !in sep
    requires forall i :: 0 <= i < |parts| ==> c !in parts[i]
    ensures c !in Join(sep, parts)
    decreases |parts|
  {
    if |parts| > 1 {
      assert forall i :: 0 <= i < |parts| - 1 ==> parts[1..][i] == parts[i + 1];
      JoinAvoids(sep, parts[1..], c);
    }
  }

  /** Joining one more part appends the separator and that part. */
  lemma {:induction false} JoinSnoc(sep: string, parts: seq<string>, p: string)
    requires |parts| > 0
    ensures Join(sep, parts + [p]) == Join(sep, parts) + sep + p
    decreases |parts|
  {
    var ps := parts + [p];
    if |parts| > 1 {
      assert ps[1..] == parts[1..] + [p];
      JoinSnoc(sep, parts[1..], p);
    }
  }

  /** Words joined by single spaces form a normalized string, empty only when
      there are no words. */
  lemma {:induction false} JoinWordsNormalized(ws: seq<string>)
    requires AllWords(ws)
    ensures Normalized(Join(" ", ws))
    ensures |ws| > 0 ==> |Join(" ", ws)| >= |ws[0]| > 0
    decreases |ws|
  {
    if |ws| > 1 {
      var rest := Join(" ", ws[1..]);
      JoinWordsNormalized(ws[1..]);
      var w := ws[0];
      var s := w + " " + rest;
      assert IsWord(w);
      forall i | 0 <= i < |s| && IsSpace(s[i])
        ensures s[i] == ' ' && 0 < i < |s| - 1 && !IsSpace(s[i + 1])
      {
        if i == |w| {
          assert s[i + 1] == rest[0];
        } else if i > |w| {
          assert s[i] == rest[i - |w| - 1];
          if i + 1 < |s| { assert s[i + 1] == rest[i - |w|]; }
        }
      }
    }
  }

  /** Round trip: splitting words joined by single spaces gives the words back. */
  lemma {:induction false} SplitJoin(ws: seq<string>)
    requires AllWords(ws)
    ensures Split(Join(" ", ws)) == ws
    decreases |ws|
  {
    if |ws| == 1 {
      SplitWord(ws[0]);
    } else if |ws| > 1 {
      SplitJoin(ws[1..]);
      SplitWord(ws[0]);
      SplitAtSpace(ws[0], ' ', Join(" ", ws[1..]));
      assert ws[0] + " " + Join(" ", ws[1..]) == ws[0] + [' '] + Join(" ", ws[1..]);
      assert [ws[0]] + ws[1..] == ws;
    }
  }

  // ---------------------------------------------------------------------------
  // strip()

  /** The number of whitespace characters `s` starts with. */
  function LeadingSpaces(s: string): (n: nat)
    ensures n <= |s|
  {
    if |s| > 0 && IsSpace(s[0]) then
      1 + LeadingSpaces(s[1..])
    else 0
  }

  /** The number of whitespace characters `s` ends with. */
  function TrailingSpaces(s: string): (n: nat)
    ensures n <= |s|
  {
    if |s| > 0 && IsSpace(s[|s| - 1]) then
      1 + TrailingSpaces(s[..|s| - 1])
    else 0
  }

  /** `s.strip()`: `s` without its leading and trailing whitespace (StripSpec
      states it). */
  function Strip(s: string): (r: string)
    ensures |r| <= |s|
  {
    var i := LeadingSpaces(s);
    var t := s[i..];
    t[..|t| - TrailingSpaces(t)]
  }

  /** LeadingSpaces counts the whitespace run that starts `s`. */
  lemma {:induction false} LeadingSpacesSpec(s: string)
    ensures AllSpace(s[..LeadingSpaces(s)])
    ensures LeadingSpaces(s) == |s| || !IsSpace(s[LeadingSpaces(s)])
    decreases |s|
  {
    if |s| > 0 && IsSpace(s[0]) {
      LeadingSpacesSpec(s[1..]);
      var n := LeadingSpaces(s);
      var u := s[..n];
      forall k | 0 <= k < |u|
        ensures IsSpace(u[k])
      {
        if k > 0 { assert u[k] == s[1..][..n - 1][k - 1]; }
      }
    }
  }

  /** TrailingSpaces counts the whitespace run that ends `s`. */
  lemma {:induction false} TrailingSpacesSpec(s: string)
    ensures AllSpace(s[|s| - TrailingSpaces(s)..])
    ensures TrailingSpaces(s) == |s| || !IsSpace(s[|s| - 1 - TrailingSpaces(s)])
    decreases |s|
  {
    if |s| > 0 && IsSpace(s[|s| - 1]) {
      var f := s[..|s| - 1];
      TrailingSpacesSpec(f);
      var n := TrailingSpaces(s);
      var u := s[|s| - n..];
      forall k | 0 <= k < |u|
        ensures IsSpace(u[k])
      {
        if k < n - 1 { assert u[k] == f[|f| - (n - 1)..][k]; }
      }
    }
  }

  /** `strip()` removes a whitespace run from each end and nothing else: the
      result is a slice of the input with whitespace on both sides of it, and
      it neither starts nor ends with whitespace. */
  lemma StripSpec(s: string)
    ensures Strip(s) == [] || (!IsSpace(Strip(s)[0]) && !IsSpace(Strip(s)[|Strip(s)| - 1]))
    ensures exists i :: 0 <= i && i + |Strip(s)| <= |s| && Strip(s) == s[i..i + |Strip(s)|]
                        && AllSpace(s[..i]) && AllSpace(s[i + |Strip(s)|..])
  {
    var i := LeadingSpaces(s);
    var t := s[i..];
    var j := TrailingSpaces(t);
    var r := t[..|t| - j];
    LeadingSpacesSpec(s);
    TrailingSpacesSpec(t);
    assert r == Strip(s);
    assert r == s[i..i + |r|];
    assert s[i + |r|..] == t[|t| - j..];
    assert r != [] ==> r[0] == s[i];
    assert r != [] ==> r[|r| - 1] == t[|t| - 1 - j];
  }

  /** `strip()` only removes characters: every character of the result is one
      of the input's. */
  lemma StripKeepsChars(s: string)
    ensures forall c :: c in Strip(s) ==> c in s
  {
    var i := LeadingSpaces(s);
    var t := s[i..];
    var j := TrailingSpaces(t);
    assert Strip(s) == t[..|t| - j];
    forall c | c in Strip(s)
      ensures c in s
    {
      var k :| 0 <= k < |Strip(s)| && Strip(s)[k] == c;
      assert s[i + k] == c;
    }
  }

  /** Stripping text that has no whitespace at either end, followed by one space,
      removes exactly that space. */
  lemma StripTrailingSpace(x: string)
    requires x == [] || (!IsSpace(x[0]) && !IsSpace(x[|x| - 1]))
    ensures Strip(x + " ") == x
  {
    var s := x + " ";
    var i := LeadingSpaces(s);
    if x == [] {
      assert s[1..] == "";
      assert i == 1;
    } else {
      assert i == 0;
      assert s[..|s| - 1] == x;
      assert IsSpace(s[|s| - 1]);
      assert TrailingSpaces(x) == 0;
      var j := TrailingSpaces(s);
      assert j == 1;
    }
  }

  // ---------------------------------------------------------------------------
  // find() and replace(pat, "")

  /** `pat` occurs in `s` starting at index `i`. */
  predicate OccursAt(s: string, pat: string, i: int) {
    0 <= i && i + |pat| <= |s| && s[i..i + |pat|] == pat
  }

  predicate Occurs(s: string, pat: string) {
    exists i :: 0 <= i <= |s| && OccursAt(s, pat, i)
  }

  /** A pattern whose first character is absent from `s` does not occur in it. */
  lemma AbsentFirstChar(s: string, pat: string)
    requires |pat| > 0 && pat[0] !in s
    ensures !Occurs(s, pat)
  {
  }

  /** `s.find(pat, k)`: the index of the first occurrence of `pat` at index `k`
      or later, if any (FindFromLeftmost states it). */
  function FindFrom(s: string, pat: string, k: nat): (r: Option<nat>)
    ensures r.Some? ==> k <= r.value && OccursAt(s, pat, r.value)
    decreases |s| - k
  {
    if k + |pat| > |s| then None
    else if s[k..k + |pat|] == pat then Some(k)
    else FindFrom(s, pat, k + 1)
  }

  /** FindFrom reports an occurrence exactly when there is one from `k` on, and
      the one it reports is the leftmost. */
  lemma {:induction false} FindFromLeftmost(s: string, pat: string, k: nat)
    ensures FindFrom(s, pat, k).Some? ==> OccursAt(s, pat, FindFrom(s, pat, k).value)
    ensures forall j :: k <= j && OccursAt(s, pat, j) ==>
              FindFrom(s, pat, k).Some? && FindFrom(s, pat, k).value <= j
    decreases |s| - k
  {
    if k + |pat| <= |s| && s[k..k + |pat|] != pat {
      FindFromLeftmost(s, pat, k + 1);
    }
  }

  /** `s.replace(pat, "")`: one left-to-right pass deleting non-overlapping
      occurrences of `pat`, each search resuming right after the occurrence just
      deleted. An empty `pat` leaves `s` unchanged. */
  function Remove(s: string, pat: string): (r: string)
    ensures !Occurs(s, pat) ==> r == s
    ensures |r| <= |s|
    decreases |s|
  {
    if |pat| == 0 then s
    else
      FindFromLeftmost(s, pat, 0);
      match FindFrom(s, pat, 0)
      case None => s
      case Some(i) => s[..i] + Remove(s[i + |pat|..], pat)
  }

  /** The leftmost occurrence is removed and the search resumes right after it:
      if `pat` first occurs just after `a`, removal keeps `a` and continues on `b`. */
  lemma RemoveLeftmost(a: string, pat: string, b: string)
    requires |pat| > 0
    requires forall j :: 0 <= j < |a| ==> !OccursAt(a + pat + b, pat, j)
    ensures Remove(a + pat + b, pat) == a + Remove(b, pat)
  {
    var s := a + pat + b;
    assert s[|a|..|a| + |pat|] == pat;
    assert OccursAt(s, pat, |a|);
    FindFromLeftmost(s, pat, 0);
    var f := FindFrom(s, pat, 0);
    assert f == Some(|a|);
    assert s[..|a|] == a;
    assert s[|a| + |pat|..] == b;
  }
}
