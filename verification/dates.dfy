/** `extract_date`: the `DD-MM-YYYY` day of a start-time cell. A timestamp is formatted
    directly; anything else is rendered as text, its whitespace normalised, then parsed
    as a full date-time and, failing that, as a bare day from its first word. */
module Dates {
  import opened Base
  import opened Text
  import opened Tables
  import opened Hooks

  /** The text a non-timestamp start time is parsed from. */
  function DateText(c: Cell): (r: string)
    ensures Collapsed(r)
    ensures |r| > 0 ==> r[0] != ' ' && r[|r| - 1] != ' '
  {
    Normalize(Shown(c))
  }

  function ExtractDate(c: Cell, h: Hooks): (r: Option<string>)
    ensures c.Null? ==> r.None?
    ensures c.Stamp? ==> r == Some(h.stampDate(c.instant))
    ensures !c.Null? && !c.Stamp? && h.parseFull(DateText(c)).Some? ==>
              r == h.parseFull(DateText(c))
    ensures !c.Null? && !c.Stamp? && h.parseFull(DateText(c)).None? ==>
              r == (if FirstToken(DateText(c)).Some? then h.parseDay(FirstToken(DateText(c)).value)
                    else None)
  {
    if c.Null? then None
    else if c.Stamp? then Some(h.stampDate(c.instant))
    else
      var s := DateText(c);
      match h.parseFull(s)
      case Some(d) => Some(d)
      case None =>
        match FirstToken(s)
        case None => None
        case Some(w) => h.parseDay(w)
  }

  /** A start time with no text at all has no date, whatever the parsers do. */
  lemma BlankHasNoDate(s: string, h: Hooks)
    requires forall i :: 0 <= i < |s| ==> IsSpace(s[i])
    requires h.parseFull(Normalize(s)).None?
    ensures ExtractDate(Str(s), h).None?
  {
    BlankNormalizesEmpty(s);
  }

  lemma BlankNormalizesEmpty(s: string)
    requires forall i :: 0 <= i < |s| ==> IsSpace(s[i])
    ensures Normalize(s) == ""
  {
    assert StripStart(s) == |s|;
    assert Strip(s) == "";
  }

  /** Surrounding and repeated whitespace never changes the date read from a text. */
  lemma WhitespaceInsensitive(s: string, h: Hooks)
    ensures ExtractDate(Str(s), h) == ExtractDate(Str(Normalize(s)), h)
  {
    NormalizeIdempotent(s);
  }

  /** The date column of a frame (`df['__date'] = df[col].apply(extract_date)`). */
  function DatesOf(f: Frame, col: nat, h: Hooks): (ds: seq<Option<string>>)
    ensures |ds| == |f.rows|
    ensures forall i :: 0 <= i < |ds| ==> ds[i] == ExtractDate(At(f.rows[i], col), h)
  {
    seq(|f.rows|, i requires 0 <= i < |f.rows| => ExtractDate(At(f.rows[i], col), h))
  }

  /** `ds.dropna()`: the dates that were found, in row order. */
  function Present(ds: seq<Option<string>>): (r: seq<string>)
    ensures forall d :: d in r <==> Some(d) in ds
  {
    if |ds| == 0 then []
    else
      var rest := Present(ds[1..]);
      assert forall x :: x in ds <==> x == ds[0] || x in ds[1..];
      if ds[0].Some? then [ds[0].value] + rest else rest
  }
}
