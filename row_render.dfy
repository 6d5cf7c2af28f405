/**
 * The per-row decisions of the report loop in mythweb/mythweb_chan_recon.php: which rows are
 * highlighted, which frequency cells are blanked, and how a channel name loses its numeric prefix.
 * The HTML itself is not modelled; a blank frequency cell is `None`.
 */
module RowRender {
  import opened Optional
  import opened Text
  import opened Channels

  /** What one table row shows. */
  datatype RowView = RowView(
    channum: string,
    freq: Option<string>,
    name: string,
    visible: string,
    selected: string,
    highlighted: bool)

  /** Length of the run of digits `s` starts with (what `\d+` can match there). */
  function LeadingDigits(s: string): (n: nat)
    ensures n <= |s|
    ensures forall i :: 0 <= i < n ==> IsDigit(s[i])
    ensures n < |s| ==> !IsDigit(s[n])
  {
    if s == [] || !IsDigit(s[0]) then 0 else 1 + LeadingDigits(s[1..])
  }

  /**
   * What `(.*)$` captures from `rest`: all of it when it has no line feed, all but a single
   * final line feed (PCRE's `$` also matches just before one), and no match otherwise.
   */
  function CaptureToEnd(rest: string): (m: Option<string>)
    ensures m.None? <==> |rest| > 0 && '\n' in rest[..|rest| - 1]
    ensures m.Some? ==> '\n' !in m.value && |rest| - 1 <= |m.value| <= |rest| && m.value == rest[..|m.value|]
  {
    if '\n' !in rest then Some(rest)
    else if rest[|rest| - 1] == '\n' && '\n' !in rest[..|rest| - 1] then Some(rest[..|rest| - 1])
    else None
  }

  /** The capture is one line, and `rest` is the capture, possibly followed by one line feed. */
  lemma CaptureShape(rest: string)
    ensures CaptureToEnd(rest).Some? ==>
      var m := CaptureToEnd(rest).value;
      '\n' !in m && (rest == m || rest == m + "\n")
  {
    if '\n' in rest && rest[|rest| - 1] == '\n' {
      assert rest == rest[..|rest| - 1] + "\n";
    }
  }

  /** The capture of `^\d+\.\d+ (.*)$` on `name`, or None when the pattern does not match. */
  function PrefixMatch(name: string): (m: Option<string>)
    ensures m.Some? ==> '\n' !in m.value && |m.value| + 4 <= |name| && IsDigit(name[0])
  {
    var n1 := LeadingDigits(name);
    if n1 == 0 || n1 == |name| || name[n1] != '.' then None
    else
      var t := name[n1 + 1..];
      var n2 := LeadingDigits(t);
      if n2 == 0 || n2 == |t| || t[n2] != ' ' then None
      else CaptureToEnd(t[n2 + 1..])
  }

  /** The displayed name: the capture when the name has a numeric prefix, the name itself otherwise. */
  function StripName(name: string): (shown: string)
    ensures shown == name || ('\n' !in shown && |shown| + 4 <= |name| && IsDigit(name[0]))
  {
    match PrefixMatch(name)
    case Some(rest) => rest
    case None => name
  }

  /** A name of the form `digits "." digits " " rest`, with `rest` on one line, is displayed as `rest`. */
  lemma StripPrefixed(d1: string, d2: string, rest: string)
    requires IsDigits(d1) && IsDigits(d2) && '\n' !in rest
    ensures StripName(d1 + "." + d2 + " " + rest) == rest
    ensures StripName(d1 + "." + d2 + " " + rest + "\n") == rest
  {
    PrefixMatchOf(d1, d2, rest);
    assert d1 + "." + d2 + " " + rest + "\n" == d1 + "." + d2 + " " + (rest + "\n");
    PrefixMatchOf(d1, d2, rest + "\n");
    assert (rest + "\n")[..|rest + "\n"| - 1] == rest;
  }

  /** On `digits "." digits " " tail` the pattern's prefix matches and `(.*)$` is applied to `tail`. */
  lemma PrefixMatchOf(d1: string, d2: string, tail: string)
    requires IsDigits(d1) && IsDigits(d2)
    ensures PrefixMatch(d1 + "." + d2 + " " + tail) == CaptureToEnd(tail)
  {
    var name := d1 + "." + d2 + " " + tail;
    assert name == d1 + ("." + d2 + " " + tail);
    LeadingDigitsOf(d1, "." + d2 + " " + tail);
    var t := name[|d1| + 1..];
    assert t == d2 + (" " + tail);
    LeadingDigitsOf(d2, " " + tail);
    assert t[|d2| + 1..] == tail;
  }

  /** `\d+` at the start of `d + s` takes exactly the digits `d` when `s` does not start with a digit. */
  lemma LeadingDigitsOf(d: string, s: string)
    requires IsDigits(d) && (s == [] || !IsDigit(s[0]))
    ensures LeadingDigits(d + s) == |d|
  {
    assert forall i :: 0 <= i < |d| ==> (d + s)[i] == d[i];
    assert s != [] ==> (d + s)[|d|] == s[0];
  }

  /** The digits and the tail `PrefixMatch` splits a matching name into. */
  lemma PrefixParts(name: string) returns (d1: string, d2: string, tail: string)
    requires PrefixMatch(name).Some?
    ensures IsDigits(d1) && IsDigits(d2)
    ensures name == d1 + "." + d2 + " " + tail
    ensures CaptureToEnd(tail) == PrefixMatch(name)
  {
    var n1 := LeadingDigits(name);
    var t := name[n1 + 1..];
    var n2 := LeadingDigits(t);
    tail := t[n2 + 1..];
    d1, d2 := name[..n1], t[..n2];
    assert name == d1 + [name[n1]] + t;
    assert t == d2 + [t[n2]] + tail;
  }

  /**
   * Conversely, a name whose pattern matches has the form `digits "." digits " " rest`, with
   * `rest` on one line and possibly one final line feed, and is displayed as `rest`.
   */
  lemma StripOnlyPrefixed(name: string) returns (d1: string, d2: string)
    requires PrefixMatch(name).Some?
    ensures var rest := PrefixMatch(name).value;
            && StripName(name) == rest && '\n' !in rest && IsDigits(d1) && IsDigits(d2)
            && (name == d1 + "." + d2 + " " + rest || name == d1 + "." + d2 + " " + rest + "\n")
  {
    var tail;
    d1, d2, tail := PrefixParts(name);
    CaptureShape(tail);
  }

  /** Every other name is shown unchanged: the pattern matches only the names `StripPrefixed` describes. */
  lemma StripUnprefixed(name: string)
    requires forall d1, d2, rest :: IsDigits(d1) && IsDigits(d2) && '\n' !in rest ==>
      name != d1 + "." + d2 + " " + rest && name != d1 + "." + d2 + " " + rest + "\n"
    ensures StripName(name) == name
  {
    if PrefixMatch(name).Some? {
      var d1, d2 := StripOnlyPrefixed(name);
      assert false;
    }
  }

  /** The freqid of the row before row `i` of the sorted array, `''` before the first row. */
  function PrevFreq(freqs: seq<string>, i: nat): string
    requires i <= |freqs|
  {
    if i == 0 then "" else freqs[i - 1]
  }

  /** Each cell is blank exactly when its freqid equals the previous row's, and shows the freqid otherwise. */
  ghost predicate Deduplicated(cells: seq<Option<string>>, freqs: seq<string>) {
    && |cells| == |freqs|
    && forall i {:trigger cells[i]} :: 0 <= i < |cells| ==> cells[i] == (if freqs[i] == PrevFreq(freqs, i) then None else Some(freqs[i]))
  }

  /** Reading the column top to bottom, a blank cell repeats the value above it (`''` at the top). */
  function FillBlanks(cells: seq<Option<string>>): (col: seq<string>)
    ensures |col| == |cells|
  {
    if cells == [] then []
    else
      var n := |cells| - 1;
      var above := FillBlanks(cells[..n]);
      above + [cells[n].GetOr(PrevFreq(above, n))]
  }

  /** Blanking repeated frequencies loses nothing: filling the blanks back in gives every row's freqid. */
  lemma {:induction false} FillBlanksRestores(cells: seq<Option<string>>, freqs: seq<string>)
    requires Deduplicated(cells, freqs)
    ensures FillBlanks(cells) == freqs
  {
    if cells != [] {
      var n := |cells| - 1;
      assert Deduplicated(cells[..n], freqs[..n]) by {
        forall i | 0 <= i < n
          ensures PrevFreq(freqs[..n], i) == PrevFreq(freqs, i)
        {
        }
      }
      FillBlanksRestores(cells[..n], freqs[..n]);
      assert freqs == freqs[..n] + [freqs[n]];
    }
  }

  /** The freqid column of the array, in its order. */
  function FreqIds(t: Table): (freqs: seq<string>)
    requires forall i :: 0 <= i < |t.order| ==> t.order[i] in t.rows
    ensures |freqs| == |t.order|
    ensures forall i :: 0 <= i < |freqs| ==> freqs[i] == t.rows[t.order[i]].freqid
  {
    seq(|t.order|, i requires 0 <= i < |t.order| && t.order[i] in t.rows => t.rows[t.order[i]].freqid)
  }

  /** The frequency column of the rendered rows. */
  function FreqCells(views: seq<RowView>): (cells: seq<Option<string>>)
    ensures |cells| == |views|
    ensures forall i :: 0 <= i < |cells| ==> cells[i] == views[i].freq
  {
    seq(|views|, i requires 0 <= i < |views| => views[i].freq)
  }

  /**
   * The cells of a row that do not depend on the row before: the key, the two flags as
   * stored, the highlight exactly when they differ, and the stripped name.
   */
  predicate Shows(v: RowView, key: string, r: Rec) {
    && v.channum == key
    && v.visible == r.visible
    && v.selected == r.xmltvSelected
    && (v.highlighted <==> r.visible != r.xmltvSelected)
    && v.name == StripName(r.name)
  }

  /** The frequency cell is blank exactly when the freqid equals the one before. */
  predicate ShowsFreq(v: RowView, freqid: string, before: string) {
    v.freq == if freqid == before then None else Some(freqid)
  }

  /** The freqid of the row before row `i` in the array's order, `''` before the first row. */
  function FreqBefore(t: Table, i: nat): string
    requires i <= |t.order|
    requires forall m :: 0 <= m < |t.order| ==> t.order[m] in t.rows
  {
    if i == 0 then "" else t.rows[t.order[i - 1]].freqid
  }

  /** Row-by-row blanking against the row before is `Deduplicated` over the whole column. */
  lemma DeduplicatedRows(t: Table, views: seq<RowView>)
    requires forall m :: 0 <= m < |t.order| ==> t.order[m] in t.rows
    requires |views| == |t.order|
    requires forall m {:trigger views[m]} :: 0 <= m < |views| ==> ShowsFreq(views[m], t.rows[t.order[m]].freqid, FreqBefore(t, m))
    ensures Deduplicated(FreqCells(views), FreqIds(t))
  {
    var freqs := FreqIds(t);
    forall m | 0 <= m < |views|
      ensures PrevFreq(freqs, m) == FreqBefore(t, m)
    {
    }
  }

  /**
   * The report loop, one row per key in the array's order, carrying the previous frequency
   * (`$prev_freq`, initially `''`) from row to row.
   */
  method RenderRows(t: Table) returns (views: seq<RowView>)
    requires forall i :: 0 <= i < |t.order| ==> t.order[i] in t.rows
    ensures |views| == |t.order|
    ensures forall i :: 0 <= i < |views| ==> Shows(views[i], t.order[i], t.rows[t.order[i]])
    ensures Deduplicated(FreqCells(views), FreqIds(t))
  {
    var prevFreq := "";
    views := [];
    var i := 0;
    while i < |t.order|
      invariant 0 <= i <= |t.order|
      invariant |views| == i
      invariant prevFreq == FreqBefore(t, i)
      invariant forall m {:trigger views[m]} :: 0 <= m < i ==>
        Shows(views[m], t.order[m], t.rows[t.order[m]]) && ShowsFreq(views[m], t.rows[t.order[m]].freqid, FreqBefore(t, m))
    {
      var channum := t.order[i];
      var chan := t.rows[channum];
      var highlighted := chan.visible != chan.xmltvSelected;
      var freq: Option<string> := Some(chan.freqid);
      if chan.freqid != prevFreq {
        prevFreq := chan.freqid;
      } else {
        freq := None;
      }
      var name := StripName(chan.name);
      views := views + [RowView(channum, freq, name, chan.visible, chan.xmltvSelected, highlighted)];
      i := i + 1;
    }
    DeduplicatedRows(t, views);
  }
}
