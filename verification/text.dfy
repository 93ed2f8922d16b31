/** The string operations the analysis view relies on, with Python's semantics:
    `strip`, `lower`, `in`, `split`, `replace`, `re.sub(r'\s+', ' ', s)` and `<` on `str`. */
module Text {
  import opened Base
  import opened Counting

  /** `c.isspace()` (which is also what `\s`, `split()` and `strip()` use). */
  predicate IsSpace(c: char) {
    var n := c as int;
    || 0x09 <= n <= 0x0D || 0x1C <= n <= 0x20
    || n == 0x85 || n == 0xA0 || n == 0x1680
    || 0x2000 <= n <= 0x200A
    || n == 0x2028 || n == 0x2029 || n == 0x202F || n == 0x205F || n == 0x3000
  }

  predicate NoSpace(s: string) {
    forall i :: 0 <= i < |s| ==> !IsSpace(s[i])
  }

  /** Index of the first non-whitespace character at or after `i`, or `|s|`. */
  function SkipSpaces(s: string, i: nat): (j: nat)
    requires i <= |s|
    ensures i <= j <= |s|
    ensures forall k :: i <= k < j ==> IsSpace(s[k])
    ensures j < |s| ==> !IsSpace(s[j])
    decreases |s| - i
  {
    if i == |s| || !IsSpace(s[i]) then i else SkipSpaces(s, i + 1)
  }

  /** One past the last non-whitespace character before `j`, or 0. */
  function TextEnd(s: string, j: nat): (e: nat)
    requires j <= |s|
    ensures e <= j
    ensures forall k :: e <= k < j ==> IsSpace(s[k])
    ensures e > 0 ==> !IsSpace(s[e - 1])
  {
    if j == 0 || !IsSpace(s[j - 1]) then j else TextEnd(s, j - 1)
  }

  /** `s.lstrip()`. */
  function DropLeading(s: string): string {
    s[SkipSpaces(s, 0)..]
  }

  /** Where `s.strip()` starts: everything before is whitespace. */
  function StripStart(s: string): (i: nat)
    ensures i <= |s|
    ensures forall k :: 0 <= k < i ==> IsSpace(s[k])
  {
    SkipSpaces(s, 0)
  }

  /** Where `s.strip()` ends: everything from here on is whitespace. */
  function StripEnd(s: string): (e: nat)
    ensures StripStart(s) <= e <= |s|
    ensures forall k :: e <= k < |s| ==> IsSpace(s[k])
  {
    var e := TextEnd(s, |s|);
    if e < StripStart(s) then StripStart(s) else e
  }

  /** `s.strip()`: the slice between the leading and the trailing whitespace. */
  function Strip(s: string): (r: string)
    ensures |r| > 0 ==> !IsSpace(r[0]) && !IsSpace(r[|r| - 1])
  {
    s[StripStart(s)..StripEnd(s)]
  }

  /** A string with no whitespace at either end is its own strip. */
  lemma StripFixed(s: string)
    requires |s| > 0 ==> !IsSpace(s[0]) && !IsSpace(s[|s| - 1])
    ensures Strip(s) == s
  {
    if |s| > 0 {
      assert StripStart(s) == 0;
      assert TextEnd(s, |s|) == |s|;
    }
  }

  lemma StripIdempotent(s: string)
    ensures Strip(Strip(s)) == Strip(s)
  {
    StripFixed(Strip(s));
  }

  /** Only whitespace is removed: a non-whitespace character stays inside the slice. */
  lemma StripKeeps(s: string, k: int)
    requires 0 <= k < |s| && !IsSpace(s[k])
    ensures StripStart(s) <= k < StripEnd(s)
  {
  }

  function LowerChar(c: char): char {
    if 'A' <= c <= 'Z' then (c as int + 32) as char else c
  }

  /** `s.lower()`, for the ASCII letters. */
  function Lower(s: string): (r: string)
    ensures |r| == |s|
    ensures forall i :: 0 <= i < |s| ==> r[i] == LowerChar(s[i])
  {
    seq(|s|, i requires 0 <= i < |s| => LowerChar(s[i]))
  }

  /** `t` is a prefix of `s`. */
  predicate StartsWith(s: string, t: string) {
    |t| <= |s| && s[..|t|] == t
  }

  /** `t in s`, the substring test. */
  predicate Contains(s: string, t: string)
    decreases |s|
  {
    StartsWith(s, t) || (|s| > 0 && Contains(s[1..], t))
  }

  /** `t` occurs in `s` starting at position `i`. */
  predicate OccursAt(s: string, t: string, i: int) {
    0 <= i <= |s| - |t| && s[i..i + |t|] == t
  }

  /** The recursive substring test agrees with the positional one. */
  lemma {:induction false} ContainsAt(s: string, t: string)
    ensures Contains(s, t) <==> exists i :: OccursAt(s, t, i)
    decreases |s|
  {
    if |s| > 0 {
      ContainsAt(s[1..], t);
      if Contains(s[1..], t) {
        var i :| OccursAt(s[1..], t, i);
        assert s[1..][i..i + |t|] == s[i + 1..i + 1 + |t|];
        assert OccursAt(s, t, i + 1);
      }
      if StartsWith(s, t) {
        assert OccursAt(s, t, 0);
      }
      if i :| OccursAt(s, t, i) {
        if i > 0 {
          assert s[1..][i - 1..i - 1 + |t|] == s[i..i + |t|];
          assert OccursAt(s[1..], t, i - 1);
        } else {
          assert StartsWith(s, t);
        }
      }
    } else {
      if StartsWith(s, t) {
        assert OccursAt(s, t, 0);
      }
      if i :| OccursAt(s, t, i) {
        assert StartsWith(s, t);
      }
    }
  }

  lemma ContainsAtWitness(s: string, t: string, i: int)
    requires OccursAt(s, t, i)
    ensures Contains(s, t)
  {
    ContainsAt(s, t);
  }

  predicate NonBlank(c: char) {
    c != ' '
  }

  /** `s.replace(' ', '')`: every ASCII space removed, every other character kept, in
      order (see `RemoveBlanksAppend`). */
  function RemoveBlanks(s: string): (r: string)
    ensures |r| == Count(s, NonBlank)
    ensures ' ' !in r
    ensures forall c :: c != ' ' ==> (c in r <==> c in s)
  {
    if |s| == 0 then CountEmpty(s, NonBlank); ""
    else
      CountTail(s, NonBlank);
      assert forall c :: c in s <==> c == s[0] || c in s[1..];
      if s[0] == ' ' then RemoveBlanks(s[1..])
      else [s[0]] + RemoveBlanks(s[1..])
  }

  /** Removing the blanks is replacing each one by nothing. */
  lemma {:induction false} RemoveBlanksIsReplace(s: string)
    ensures RemoveBlanks(s) == Replace(s, " ", "")
  {
    if |s| > 0 {
      RemoveBlanksIsReplace(s[1..]);
      assert s[..1] == " " <==> s[0] == ' ';
    }
  }

  lemma {:induction false} RemoveBlanksAppend(a: string, b: string)
    ensures RemoveBlanks(a + b) == RemoveBlanks(a) + RemoveBlanks(b)
  {
    if |a| > 0 {
      assert (a + b)[1..] == a[1..] + b;
      RemoveBlanksAppend(a[1..], b);
    } else {
      assert a + b == b;
    }
  }

  /** `s.split(sep)`: the pieces between separators, empty pieces included. */
  function Split(s: string, sep: char): (parts: seq<string>)
    ensures |parts| >= 1
    ensures forall i :: 0 <= i < |parts| ==> sep !in parts[i]
  {
    if |s| == 0 then [""]
    else
      var rest := Split(s[1..], sep);
      if s[0] == sep then [""] + rest
      else [[s[0]] + rest[0]] + rest[1..]
  }

  /** `sep.join(parts)`. */
  function JoinWith(parts: seq<string>, sep: char): string
    requires |parts| >= 1
  {
    if |parts| == 1 then parts[0] else parts[0] + [sep] + JoinWith(parts[1..], sep)
  }

  /** Splitting loses nothing: joining the pieces with the separator gives `s` back. */
  lemma {:induction false} SplitJoin(s: string, sep: char)
    ensures JoinWith(Split(s, sep), sep) == s
  {
    if |s| > 0 {
      var rest := Split(s[1..], sep);
      SplitJoin(s[1..], sep);
      if s[0] == sep {
        assert Split(s, sep) == [""] + rest;
        assert ([""] + rest)[1..] == rest;
      } else {
        var parts := [[s[0]] + rest[0]] + rest[1..];
        if |rest| == 1 {
          assert JoinWith(parts, sep) == [s[0]] + rest[0];
        } else {
          assert parts[1..] == rest[1..];
          assert JoinWith(parts, sep) == [s[0]] + rest[0] + [sep] + JoinWith(rest[1..], sep);
        }
      }
    }
  }

  /** `re.sub(r'\s+', ' ', s)`: every run of whitespace becomes one ASCII space. */
  function CollapseRuns(s: string): (r: string)
    ensures |s| > 0 ==> |r| > 0
    ensures |s| > 0 && !IsSpace(s[0]) ==> r[0] == s[0]
    ensures |s| > 0 && IsSpace(s[0]) ==> r[0] == ' '
    ensures |s| > 0 && !IsSpace(s[|s| - 1]) ==> !IsSpace(r[|r| - 1])
    ensures Collapsed(r)
    decreases |s|
  {
    if |s| == 0 then ""
    else if IsSpace(s[0]) then
      var t := DropLeading(s);
      var c := CollapseRuns(t);
      var r := " " + c;
      assert |t| > 0 ==> t[|t| - 1] == s[|s| - 1];
      forall k | 0 <= k < |r| - 1 ensures !SpaceRun(r, k) {
        if k > 0 {
          assert r[k] == c[k - 1] && r[k + 1] == c[k];
          assert !SpaceRun(c, k - 1);
        }
      }
      r
    else
      var c := CollapseRuns(s[1..]);
      var r := [s[0]] + c;
      forall k | 0 <= k < |r| - 1 ensures !SpaceRun(r, k) {
        if k > 0 {
          assert r[k] == c[k - 1] && r[k + 1] == c[k];
          assert !SpaceRun(c, k - 1);
        }
      }
      r
  }

  /** The only whitespace is single ASCII spaces. */
  predicate Collapsed(s: string) {
    && (forall i :: 0 <= i < |s| && IsSpace(s[i]) ==> s[i] == ' ')
    && (forall i :: 0 <= i < |s| - 1 ==> !SpaceRun(s, i))
  }

  /** Positions `i` and `i + 1` both hold whitespace. */
  predicate SpaceRun(s: string, i: int)
    requires 0 <= i < |s| - 1
  {
    IsSpace(s[i]) && IsSpace(s[i + 1])
  }

  lemma CollapsedSuffix(s: string)
    requires |s| > 0 && Collapsed(s)
    ensures Collapsed(s[1..])
  {
    CollapsedSlice(s, 1, |s|);
    assert s[1..|s|] == s[1..];
  }

  lemma CollapsedSlice(s: string, i: int, j: int)
    requires 0 <= i <= j <= |s| && Collapsed(s)
    ensures Collapsed(s[i..j])
  {
    var t := s[i..j];
    forall k | 0 <= k < |t| - 1
      ensures !SpaceRun(t, k)
    {
      assert !SpaceRun(s, i + k);
      assert t[k] == s[i + k] && t[k + 1] == s[i + k + 1];
    }
  }

  lemma {:induction false} CollapseRunsFixed(s: string)
    requires Collapsed(s)
    ensures CollapseRuns(s) == s
    decreases |s|
  {
    if |s| > 0 {
      CollapsedSuffix(s);
      CollapseRunsFixed(s[1..]);
      if IsSpace(s[0]) {
        assert s[0] == ' ';
        var t := s[1..];
        assert |t| > 0 ==> !SpaceRun(s, 0);
        assert DropLeading(t) == t;
        assert DropLeading(s) == t;
        assert [s[0]] == " ";
        assert s == [s[0]] + t;
      } else {
        assert s == [s[0]] + s[1..];
      }
    }
  }

  /** The clean-up before a date string is parsed: strip, replace every run of
      whitespace by one space (`re.sub(r'\s+', ' ', s)`), strip again. */
  function Normalize(s: string): (r: string)
    ensures Collapsed(r)
    ensures |r| > 0 ==> r[0] != ' ' && r[|r| - 1] != ' '
  {
    var c := CollapseRuns(Strip(s));
    var r := Strip(c);
    CollapsedSlice(c, StripStart(c), StripEnd(c));
    r
  }

  /** Normalising twice is normalising once. */
  lemma NormalizeIdempotent(s: string)
    ensures Normalize(Normalize(s)) == Normalize(s)
  {
    var n := Normalize(s);
    StripFixed(n);
    CollapseRunsFixed(n);
    StripFixed(n);
  }

  /** The longest prefix without whitespace. */
  function TakeWord(s: string): (w: string)
    ensures |w| <= |s| && w == s[..|w|] && NoSpace(w)
    ensures |w| < |s| ==> IsSpace(s[|w|])
  {
    if |s| == 0 || IsSpace(s[0]) then "" else [s[0]] + TakeWord(s[1..])
  }

  /** `s.split()[0]`, or `None` where Python raises `IndexError` (no token at all). */
  function FirstToken(s: string): (r: Option<string>)
    ensures r.None? <==> forall i :: 0 <= i < |s| ==> IsSpace(s[i])
    ensures r.Some? ==> |r.value| > 0 && NoSpace(r.value) && Contains(s, r.value)
  {
    var t := DropLeading(s);
    if |t| == 0 then None
    else
      var w := TakeWord(t);
      assert s[|s| - |t|..|s| - |t| + |w|] == w;
      ContainsAtWitness(s, w, |s| - |t|);
      Some(w)
  }

  /** `a < b` on Python strings: code-point lexicographic order. */
  predicate Less(a: string, b: string) {
    if |a| == 0 then |b| > 0
    else if |b| == 0 then false
    else if a[0] != b[0] then a[0] < b[0]
    else Less(a[1..], b[1..])
  }

  lemma {:induction false} LessIrreflexive(a: string)
    ensures !Less(a, a)
  {
    if |a| > 0 { LessIrreflexive(a[1..]); }
  }

  lemma {:induction false} LessTransitive(a: string, b: string, c: string)
    requires Less(a, b) && Less(b, c)
    ensures Less(a, c)
  {
    if |a| > 0 && |b| > 0 && |c| > 0 && a[0] == b[0] && b[0] == c[0] {
      LessTransitive(a[1..], b[1..], c[1..]);
    }
  }

  lemma {:induction false} LessTotal(a: string, b: string)
    ensures a == b || Less(a, b) || Less(b, a)
  {
    if |a| > 0 && |b| > 0 && a[0] == b[0] {
      LessTotal(a[1..], b[1..]);
      if a[1..] == b[1..] {
        assert a == [a[0]] + a[1..] && b == [b[0]] + b[1..];
      }
    }
  }

  /** `s.replace(pat, rep)`: every non-overlapping occurrence, scanning left to right. For
      a one-character pattern, every occurrence of that character is replaced and every
      other character is kept in place. */
  function Replace(s: string, pat: string, rep: string): (r: string)
    requires |pat| > 0
    ensures !Contains(s, pat) ==> r == s
    ensures |pat| == 1 && |rep| == 1 ==>
      |r| == |s| && forall i :: 0 <= i < |s| ==> r[i] == (if s[i] == pat[0] then rep[0] else s[i])
    ensures |pat| == 1 && |rep| == 0 ==>
      pat[0] !in r && forall c :: c != pat[0] ==> (c in r <==> c in s)
    decreases |s|
  {
    if |s| < |pat| then s
    else
      assert forall c :: c in s <==> c == s[0] || c in s[1..];
      assert |pat| == 1 ==> (s[..|pat|] == pat <==> s[0] == pat[0]) && s[|pat|..] == s[1..];
      if s[..|pat|] == pat then
        var r := rep + Replace(s[|pat|..], pat, rep);
        assert |rep| == 1 ==> forall i :: 0 < i < |r| ==> r[i] == Replace(s[|pat|..], pat, rep)[i - 1];
        r
      else
        var r := [s[0]] + Replace(s[1..], pat, rep);
        assert !Contains(s, pat) ==> !Contains(s[1..], pat);
        assert forall i :: 0 < i < |r| ==> r[i] == Replace(s[1..], pat, rep)[i - 1];
        r
  }

  /** Replacing a pattern by itself changes nothing. */
  lemma {:induction false} ReplaceSelf(s: string, pat: string)
    requires |pat| > 0
    ensures Replace(s, pat, pat) == s
    decreases |s|
  {
    if |s| >= |pat| {
      if s[..|pat|] == pat {
        ReplaceSelf(s[|pat|..], pat);
        assert s == s[..|pat|] + s[|pat|..];
      } else {
        ReplaceSelf(s[1..], pat);
        assert s == [s[0]] + s[1..];
      }
    }
  }
}
