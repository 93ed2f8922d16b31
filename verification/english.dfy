/** Extraction of an English label from a bilingual column header, such as
    "पदनाम क्रमांक (Pers No.)". */
module English {
  import opened Base
  import opened Text

  predicate IsLetter(c: char) {
    'A' <= c <= 'Z' || 'a' <= c <= 'z'
  }

  predicate IsDigit(c: char) {
    '0' <= c <= '9'
  }

  /** ASCII and alphabetic, a digit, or one of ` .,-()[]`. */
  predicate EnglishChar(c: char) {
    IsLetter(c) || IsDigit(c) || c in " .,-()[]"
  }

  /** `is_english_only(text)`: every character allowed and at least one a letter. */
  predicate IsEnglishOnly(s: string): (b: bool)
    ensures b ==> |s| > 0
    ensures b ==> forall i :: 0 <= i < |s| ==> s[i] as int < 128
  {
    (forall i :: 0 <= i < |s| ==> EnglishChar(s[i])) && exists i :: 0 <= i < |s| && IsLetter(s[i])
  }

  /** The empty header fragment is never English. */
  lemma EmptyNotEnglish()
    ensures !IsEnglishOnly("")
  {
  }

  /** Stripping an English-only fragment keeps it English-only: the letter it needs is
      not whitespace, so it survives. */
  lemma StripKeepsEnglish(s: string)
    requires IsEnglishOnly(s)
    ensures IsEnglishOnly(Strip(s))
  {
    var k :| 0 <= k < |s| && IsLetter(s[k]);
    StripKeeps(s, k);
    SliceKeepsEnglish(s, StripStart(s), StripEnd(s), k);
  }

  lemma SliceKeepsEnglish(s: string, i: int, j: int, k: int)
    requires 0 <= i <= k < j <= |s| && IsLetter(s[k])
    requires forall m :: 0 <= m < |s| ==> EnglishChar(s[m])
    ensures IsEnglishOnly(s[i..j])
  {
    var t := s[i..j];
    assert t[k - i] == s[k];
    forall m | 0 <= m < |t| ensures EnglishChar(t[m]) {
      assert t[m] == s[i + m];
    }
  }

  /** The regular expression `\(([^)]+)\)` matches at position `p` when `s[p]` opens a
      parenthesis and the first `)` after it is not immediately next to it; the group is
      everything in between. */
  function GroupAt(s: string, p: nat): (g: Option<string>)
    requires p < |s|
    ensures g.Some? ==>
              && s[p] == '(' && |g.value| > 0
              && p + 1 + |g.value| < |s| && s[p + 1 + |g.value|] == ')'
              && (forall m :: p < m < p + 1 + |g.value| ==> s[m] != ')')
              && g.value == s[p + 1..p + 1 + |g.value|]
  {
    if s[p] != '(' then None
    else
      match CloseFrom(s, p + 1)
      case None => None
      case Some(q) =>
        if q == p + 1 then None else Some(s[p + 1..q])
  }

  /** Index of the first `)` at or after `k`. */
  function CloseFrom(s: string, k: nat): (q: Option<nat>)
    requires k <= |s|
    ensures q.Some? ==> k <= q.value < |s| && s[q.value] == ')'
    ensures q.Some? ==> forall m :: k <= m < q.value ==> s[m] != ')'
    ensures q.None? ==> forall m :: k <= m < |s| ==> s[m] != ')'
    decreases |s| - k
  {
    if k == |s| then None
    else if s[k] == ')' then Some(k)
    else CloseFrom(s, k + 1)
  }

  /** `re.search(r'\(([^)]+)\)', s).group(1)`: the group of the leftmost match at or
      after `k`. */
  function FirstGroupFrom(s: string, k: nat): (g: Option<string>)
    requires k <= |s|
    decreases |s| - k
  {
    if k == |s| then None
    else if GroupAt(s, k).Some? then GroupAt(s, k)
    else FirstGroupFrom(s, k + 1)
  }

  /** `p` is the leftmost position at or after `k` where the pattern matches. */
  predicate LeftmostAt(s: string, k: nat, p: nat) {
    k <= p < |s| && GroupAt(s, p).Some? && forall p' :: k <= p' < p ==> GroupAt(s, p').None?
  }

  /** The search returns the match at the leftmost position where one exists. */
  lemma {:induction false} FirstGroupFromLeftmost(s: string, k: nat)
    requires k <= |s|
    ensures FirstGroupFrom(s, k).Some? ==>
      exists p :: LeftmostAt(s, k, p) && GroupAt(s, p) == FirstGroupFrom(s, k)
    ensures FirstGroupFrom(s, k).None? ==> forall p :: k <= p < |s| ==> GroupAt(s, p).None?
    decreases |s| - k
  {
    if k < |s| {
      if GroupAt(s, k).Some? {
        assert LeftmostAt(s, k, k);
      } else {
        assert FirstGroupFrom(s, k) == FirstGroupFrom(s, k + 1);
        FirstGroupFromLeftmost(s, k + 1);
        if FirstGroupFrom(s, k).Some? {
          var p: nat :| LeftmostAt(s, k + 1, p) && GroupAt(s, p) == FirstGroupFrom(s, k + 1);
          LeftmostStep(s, k, p);
        }
      }
    }
  }

  /** No match at `k` moves the leftmost match after `k` back to `k`. */
  lemma LeftmostStep(s: string, k: nat, p: nat)
    requires k < |s| && GroupAt(s, k).None? && LeftmostAt(s, k + 1, p)
    ensures LeftmostAt(s, k, p)
  {
    forall p' | k <= p' < p ensures GroupAt(s, p').None? {
      if p' > k {
        assert k + 1 <= p' < p;
      }
    }
  }

  function FirstGroup(s: string): Option<string> {
    FirstGroupFrom(s, 0)
  }

  /** The first of the `-`-separated pieces that is English-only once stripped. */
  function FirstEnglishPart(parts: seq<string>): (r: Option<string>)
    ensures r.None? ==> forall i :: 0 <= i < |parts| ==> !IsEnglishOnly(Strip(parts[i]))
    ensures r.Some? ==> exists i :: FirstEnglishAt(parts, i) && r.value == Strip(parts[i])
  {
    if |parts| == 0 then None
    else if IsEnglishOnly(Strip(parts[0])) then
      assert FirstEnglishAt(parts, 0);
      Some(Strip(parts[0]))
    else
      var tail := parts[1..];
      var r := FirstEnglishPart(tail);
      assert forall i :: 0 < i < |parts| ==> parts[i] == tail[i - 1];
      if r.Some? then
        var i :| FirstEnglishAt(tail, i) && r.value == Strip(tail[i]);
        assert FirstEnglishAt(parts, i + 1);
        r
      else r
  }

  /** Piece `i` is English-only once stripped, and no earlier piece is. */
  predicate FirstEnglishAt(parts: seq<string>, i: int) {
    && 0 <= i < |parts|
    && IsEnglishOnly(Strip(parts[i]))
    && forall j :: 0 <= j < i ==> !IsEnglishOnly(Strip(parts[j]))
  }

  /** `extract_english(col)`: a parenthesised English group, else the whole header,
      else the first English piece between dashes. */
  function ExtractEnglish(col: string): (r: Option<string>)
    ensures r.Some? ==> IsEnglishOnly(r.value)
    ensures GroupWins(col) ==> r == Some(Strip(FirstGroup(col).value))
    ensures !GroupWins(col) && IsEnglishOnly(col) ==> r == Some(Strip(col))
  {
    var g := FirstGroup(col);
    if g.Some? && IsEnglishOnly(g.value) then
      StripKeepsEnglish(g.value);
      Some(Strip(g.value))
    else if IsEnglishOnly(col) then
      StripKeepsEnglish(col);
      Some(Strip(col))
    else if '-' in col then
      FirstEnglishPart(Split(col, '-'))
    else None
  }

  /** The first parenthesised group exists and is English-only, so it is the label. */
  predicate GroupWins(col: string) {
    FirstGroup(col).Some? && IsEnglishOnly(FirstGroup(col).value)
  }

  /** No label exactly when no rule applies: no English group, the header itself not
      English, and (when it has dashes) no English piece between them. */
  lemma ExtractNoneMeaning(col: string)
    ensures ExtractEnglish(col).None? <==>
      && (FirstGroup(col).None? || !IsEnglishOnly(FirstGroup(col).value))
      && !IsEnglishOnly(col)
      && ('-' in col ==> forall i :: 0 <= i < |Split(col, '-')| ==> !IsEnglishOnly(Strip(Split(col, '-')[i])))
  {
    var g := FirstGroup(col);
    if g.Some? && IsEnglishOnly(g.value) {
      assert ExtractEnglish(col) == Some(Strip(g.value));
    } else if IsEnglishOnly(col) {
      assert ExtractEnglish(col) == Some(Strip(col));
    } else if '-' in col {
      var parts := Split(col, '-');
      PartsBranch(col);
      FirstEnglishPartNone(parts);
    } else {
      assert ExtractEnglish(col) == None;
    }
  }

  lemma PartsBranch(col: string)
    requires !(FirstGroup(col).Some? && IsEnglishOnly(FirstGroup(col).value)) && !IsEnglishOnly(col) && '-' in col
    ensures ExtractEnglish(col) == FirstEnglishPart(Split(col, '-'))
  {
  }

  lemma FirstEnglishPartNone(parts: seq<string>)
    ensures FirstEnglishPart(parts).None? <==> forall i :: 0 <= i < |parts| ==> !IsEnglishOnly(Strip(parts[i]))
  {
  }

  /** An extracted label is always a fragment of the header it came from. */
  lemma ExtractedIsFragment(col: string)
    requires ExtractEnglish(col).Some?
    ensures Contains(col, ExtractEnglish(col).value)
  {
    var g := FirstGroup(col);
    if g.Some? && IsEnglishOnly(g.value) {
      assert ExtractEnglish(col) == Some(Strip(g.value));
      GroupFragment(col, g.value);
    } else if IsEnglishOnly(col) {
      assert ExtractEnglish(col) == Some(Strip(col));
      StripContained(col);
    } else {
      assert ExtractEnglish(col) == FirstEnglishPart(Split(col, '-'));
      PartFragment(col, ExtractEnglish(col).value);
    }
  }

  lemma GroupFragment(col: string, g: string)
    requires FirstGroup(col) == Some(g)
    ensures Contains(col, Strip(g))
  {
    FirstGroupFromLeftmost(col, 0);
    var p: nat :| LeftmostAt(col, 0, p) && GroupAt(col, p) == Some(g);
    assert OccursAt(col, g, p + 1);
    ContainsAtWitness(col, g, p + 1);
    StripContained(g);
    ContainsTransitive(col, g, Strip(g));
  }

  lemma PartFragment(col: string, r: string)
    requires FirstEnglishPart(Split(col, '-')) == Some(r)
    ensures Contains(col, r)
  {
    var parts := Split(col, '-');
    var i :| 0 <= i < |parts| && r == Strip(parts[i]);
    SplitPartsContained(col, '-');
    assert Contains(col, parts[i]);
    StripContained(parts[i]);
    ContainsTransitive(col, parts[i], r);
  }

  lemma StripContained(s: string)
    ensures Contains(s, Strip(s))
  {
    ContainsAtWitness(s, Strip(s), StripStart(s));
  }

  lemma ContainsTransitive(a: string, b: string, c: string)
    requires Contains(a, b) && Contains(b, c)
    ensures Contains(a, c)
  {
    ContainsAt(a, b);
    ContainsAt(b, c);
    var i :| OccursAt(a, b, i);
    var j :| OccursAt(b, c, j);
    assert b == a[i..i + |b|];
    assert forall m :: 0 <= m < |c| ==> c[m] == b[j + m] == a[i + j + m];
    assert a[i + j..i + j + |c|] == c;
    ContainsAtWitness(a, c, i + j);
  }

  /** Every piece produced by `split` occurs in the string. */
  lemma {:induction false} SplitPartsContained(s: string, sep: char)
    ensures forall i :: 0 <= i < |Split(s, sep)| ==> Contains(s, Split(s, sep)[i])
    ensures StartsWith(s, Split(s, sep)[0])
  {
    if |s| > 0 {
      var rest := Split(s[1..], sep);
      SplitPartsContained(s[1..], sep);
      var parts := Split(s, sep);
      forall i | 0 <= i < |parts| ensures Contains(s, parts[i]) {
        if s[0] == sep {
          if i > 0 { assert parts[i] == rest[i - 1]; }
        } else {
          if i > 0 {
            assert parts[i] == rest[i];
          } else {
            assert s[..|parts[0]|] == [s[0]] + s[1..][..|rest[0]|];
          }
        }
      }
      if s[0] != sep {
        assert s[..|parts[0]|] == [s[0]] + s[1..][..|rest[0]|];
      }
    }
  }

  /** The identifier header of the source data: the parenthesised group wins. */
  lemma PersNoHeaderExample()
    ensures ExtractEnglish("पदनाम क्रमांक (Pers No.)") == Some("Pers No.")
  {
    PersNoHeaderGroup();
    var lab := "Pers No.";
    assert IsLetter(lab[0]);
    assert IsEnglishOnly(lab);
    StripFixed(lab);
  }

  lemma PersNoHeaderGroup()
    ensures FirstGroup("पदनाम क्रमांक (Pers No.)") == Some("Pers No.")
  {
    var col := "पदनाम क्रमांक (Pers No.)";
    assert GroupAt(col, 14) == Some("Pers No.") by {
      assert col[14] == '(' && col[23] == ')';
      assert forall m :: 15 <= m < 23 ==> col[m] != ')';
      assert CloseFrom(col, 15) == Some(23);
      assert col[15..23] == "Pers No.";
    }
    FirstGroupSkip(col, 0, 14);
  }

  /** Positions holding no `(` cannot start a match. */
  lemma {:induction false} FirstGroupSkip(s: string, k: nat, p: nat)
    requires k <= p <= |s|
    requires forall m :: k <= m < p ==> s[m] != '('
    ensures FirstGroupFrom(s, k) == FirstGroupFrom(s, p)
    decreases p - k
  {
    if k < p {
      assert GroupAt(s, k).None?;
      FirstGroupSkip(s, k + 1, p);
    }
  }

  /** A header with no parenthesis, no dash and no English text has no label. */
  lemma DevanagariOnlyHeaderExample()
    ensures ExtractEnglish("कर्मचारी नाम") == None
  {
    var col := "कर्मचारी नाम";
    FirstGroupSkip(col, 0, |col|);
    assert FirstGroup(col).None?;
    assert !EnglishChar(col[0]);
    assert '-' !in col;
  }
}
