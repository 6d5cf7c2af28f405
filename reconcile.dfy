/**
 * The whole reconciliation of mythweb/mythweb_chan_recon.php with its two queries' results
 * as inputs: load the DVR channels, merge the schedule store's flags, sort, and decide
 * every row of the report.
 */
module Reconcile {
  import opened Optional
  import opened Text
  import opened Channels
  import opened DvrLoad
  import opened ScheduleMerge
  import opened ChannelSort
  import opened RowRender

  /** The array after both loops, before sorting. */
  function Merged(dvr: seq<DvrRow>, sched: seq<SchedRow>): (t: Table)
    ensures Valid(t)
  {
    MergeSpec(LoadSpec(dvr), sched)
  }

  /** Keys `a` and `b` tie: the same major part and the same minor part, as numbers. */
  predicate SameKeyValue(a: string, b: string) {
    Major(a) == Major(b) && Minor(a) == Minor(b)
  }

  /** Key `a` sorts no later than key `b`: by major part, then by minor part, both as numbers. */
  predicate KeyLe(a: string, b: string) {
    Major(a) < Major(b) || (Major(a) == Major(b) && Minor(a) <= Minor(b))
  }

  /**
   * For DVR numbers `a_b` made of digit strings, the report's key order is the numeric order
   * of the DVR's own (a, b) pairs.
   */
  lemma KeyOrderIsDvrOrder(raw1: string, raw2: string)
    requires NormalizeChannum(raw1).Some? && IsDigits(Field0(raw1, '_')) && IsDigits(Field1(raw1, '_'))
    requires NormalizeChannum(raw2).Some? && IsDigits(Field0(raw2, '_')) && IsDigits(Field1(raw2, '_'))
    ensures KeyLe(NormalizeChannum(raw1).value, NormalizeChannum(raw2).value) <==>
      var a1, b1 := DecimalValue(Field0(raw1, '_')), DecimalValue(Field1(raw1, '_'));
      var a2, b2 := DecimalValue(Field0(raw2, '_')), DecimalValue(Field1(raw2, '_'));
      a1 < a2 || (a1 == a2 && b1 <= b2)
  {
    KeyParts(raw1);
    KeyParts(raw2);
  }

  /**
   * What the array holds after both loops: exactly the keys some DVR row normalises to, each
   * with the last such row's columns, its own key as channel number, and the flag of the last
   * schedule row naming it ("missing" when none does).
   */
  lemma MergedAt(dvr: seq<DvrRow>, sched: seq<SchedRow>, k: string)
    ensures k in Merged(dvr, sched).rows <==> LastAdmitted(dvr, k).Some?
    ensures k in Merged(dvr, sched).rows ==>
      var d := dvr[LastAdmitted(dvr, k).value];
      Merged(dvr, sched).rows[k] == Rec(k, d.freqid, d.name, d.visible, SelectedOr(sched, k, Missing))
  {
    var t := LoadSpec(dvr);
    LoadAt(dvr, k);
    if k in t.rows {
      MergeAt(t, sched, k);
    }
  }

  /** The freqid of the DVR row a shown key comes from (`''` for a key no row gives). */
  function SourceFreq(dvr: seq<DvrRow>, k: string): string {
    match LastAdmitted(dvr, k)
    case Some(j) => dvr[j].freqid
    case None => ""
  }

  /** The frequency shown on the row before row `i`, `''` before the first row. */
  function FreqAbove(dvr: seq<DvrRow>, views: seq<RowView>, i: nat): string
    requires i <= |views|
  {
    if i == 0 then "" else SourceFreq(dvr, views[i - 1].channum)
  }

  /** Rows rendered from the array `t` in its order, as `RenderRows` promises. */
  ghost predicate RenderedFrom(views: seq<RowView>, t: Table)
    requires forall i :: 0 <= i < |t.order| ==> t.order[i] in t.rows
  {
    && |views| == |t.order|
    && (forall i :: 0 <= i < |views| ==> Shows(views[i], t.order[i], t.rows[t.order[i]]))
    && Deduplicated(FreqCells(views), FreqIds(t))
  }

  /** The rows shown are exactly the keys, once each. */
  lemma ShownKeys(dvr: seq<DvrRow>, sched: seq<SchedRow>, t: Table, views: seq<RowView>)
    requires Valid(t) && t.rows == Merged(dvr, sched).rows
    requires RenderedFrom(views, t)
    ensures forall k :: LastAdmitted(dvr, k).Some? <==> exists i :: 0 <= i < |views| && views[i].channum == k
    ensures forall i, j :: 0 <= i < j < |views| ==> views[i].channum != views[j].channum
  {
    forall k
      ensures LastAdmitted(dvr, k).Some? <==> exists i :: 0 <= i < |views| && views[i].channum == k
    {
      MergedAt(dvr, sched, k);
      if k in t.order {
        var i :| 0 <= i < |t.order| && t.order[i] == k;
        assert views[i].channum == k;
      }
    }
  }

  /** The rows come in ascending (major, minor) order. */
  lemma ShownInOrder(dvr: seq<DvrRow>, sched: seq<SchedRow>, t: Table, views: seq<RowView>)
    requires Valid(t) && t.rows == Merged(dvr, sched).rows
    requires Sortable(t.order, t.rows) && SortedBy(t.order, t.rows)
    requires RenderedFrom(views, t)
    ensures forall i, j :: 0 <= i < j < |views| ==> KeyLe(views[i].channum, views[j].channum)
  {
    forall i, j | 0 <= i < j < |views|
      ensures KeyLe(views[i].channum, views[j].channum)
    {
      MergedAt(dvr, sched, t.order[i]);
      MergedAt(dvr, sched, t.order[j]);
      assert Compare(t.rows[t.order[i]], t.rows[t.order[j]]) <= 0;
    }
  }

  /**
   * Rows whose keys tie on (major, minor) come in the order the DVR first gave their keys:
   * the sort is stable and the array lists keys in first-row order.
   */
  lemma ShownTiesInLoadOrder(dvr: seq<DvrRow>, sched: seq<SchedRow>, m: Table, t: Table, views: seq<RowView>)
    requires m == Merged(dvr, sched) && Valid(t) && t.rows == m.rows
    requires Sortable(m.order, m.rows) && Sortable(t.order, t.rows)
    requires forall c :: ClassOf(t.order, t.rows, c) == ClassOf(m.order, m.rows, c)
    requires RenderedFrom(views, t)
    ensures forall i, j :: 0 <= i < j < |views| && SameKeyValue(views[i].channum, views[j].channum) ==>
      FirstGivenBefore(dvr, views[i].channum, views[j].channum)
  {
    forall i, j | 0 <= i < j < |views| && SameKeyValue(views[i].channum, views[j].channum)
      ensures FirstGivenBefore(dvr, views[i].channum, views[j].channum)
    {
      ShownTieInLoadOrder(dvr, sched, m, t, views, i, j);
    }
  }

  /** One pair of tied rows comes in first-row order. */
  lemma ShownTieInLoadOrder(dvr: seq<DvrRow>, sched: seq<SchedRow>, m: Table, t: Table, views: seq<RowView>, i: nat, j: nat)
    requires m == Merged(dvr, sched) && Valid(t) && t.rows == m.rows
    requires Sortable(m.order, m.rows) && Sortable(t.order, t.rows)
    requires forall c :: ClassOf(t.order, t.rows, c) == ClassOf(m.order, m.rows, c)
    requires RenderedFrom(views, t)
    requires i < j < |views| && SameKeyValue(views[i].channum, views[j].channum)
    ensures FirstGivenBefore(dvr, views[i].channum, views[j].channum)
  {
    var ki, kj := t.order[i], t.order[j];
    assert Shows(views[i], ki, t.rows[ki]) && Shows(views[j], kj, t.rows[kj]);
    MergedAt(dvr, sched, ki);
    MergedAt(dvr, sched, kj);
    assert SortKey(t.rows[ki]) == SortKey(t.rows[kj]);
    var a, b := TiesKeepOrder(m.order, t.order, t.rows, i, j);
    assert m.order == LoadSpec(dvr).order;
    LoadOrder(dvr);
  }

  /**
   * Row `v` shows DVR row `d` with schedule flag `selected`: the flags as they are, the
   * highlight exactly when they differ, the stripped name, and the frequency blanked exactly
   * when it equals `above`, the frequency of the row before.
   */
  predicate ShowsSource(v: RowView, d: DvrRow, selected: string, above: string) {
    && v.visible == d.visible
    && v.selected == selected
    && (v.highlighted <==> d.visible != selected)
    && v.name == StripName(d.name)
    && v.freq == if d.freqid == above then None else Some(d.freqid)
  }

  /** The frequency above row `i` is the freqid of the array's row before it. */
  lemma FreqAboveRow(dvr: seq<DvrRow>, sched: seq<SchedRow>, t: Table, views: seq<RowView>, i: nat)
    requires Valid(t) && t.rows == Merged(dvr, sched).rows
    requires RenderedFrom(views, t)
    requires i < |views|
    ensures FreqAbove(dvr, views, i) == PrevFreq(FreqIds(t), i)
  {
    if i > 0 {
      var k := t.order[i - 1];
      assert Shows(views[i - 1], k, t.rows[k]);
      MergedAt(dvr, sched, k);
    }
  }

  /** Each row shows its key's DVR columns, schedule flag, highlight, name and frequency cell. */
  lemma ShownCells(dvr: seq<DvrRow>, sched: seq<SchedRow>, t: Table, views: seq<RowView>, i: nat)
    requires Valid(t) && t.rows == Merged(dvr, sched).rows
    requires RenderedFrom(views, t)
    requires i < |views|
    ensures LastAdmitted(dvr, views[i].channum).Some?
    ensures ShowsSource(views[i], dvr[LastAdmitted(dvr, views[i].channum).value],
                        SelectedOr(sched, views[i].channum, Missing), FreqAbove(dvr, views, i))
  {
    var k := t.order[i];
    RowAt(views, t, i);
    var d := SourceOf(dvr, sched, t, k);
    FreqAboveRow(dvr, sched, t, views, i);
    RowFromRec(views[i], k, t.rows[k], d, SelectedOr(sched, k, Missing), FreqAbove(dvr, views, i));
  }

  /** Row `i` of the rendered rows shows the array's row `i`. */
  lemma RowAt(views: seq<RowView>, t: Table, i: nat)
    requires forall i :: 0 <= i < |t.order| ==> t.order[i] in t.rows
    requires RenderedFrom(views, t)
    requires i < |views|
    ensures Shows(views[i], t.order[i], t.rows[t.order[i]])
    ensures ShowsFreq(views[i], t.rows[t.order[i]].freqid, PrevFreq(FreqIds(t), i))
  {
    assert FreqCells(views)[i] == views[i].freq;
  }

  /** The DVR row a key of the merged array was made from. */
  lemma SourceOf(dvr: seq<DvrRow>, sched: seq<SchedRow>, t: Table, k: string) returns (d: DvrRow)
    requires t.rows == Merged(dvr, sched).rows && k in t.rows
    ensures LastAdmitted(dvr, k).Some? && d == dvr[LastAdmitted(dvr, k).value]
    ensures t.rows[k] == Rec(k, d.freqid, d.name, d.visible, SelectedOr(sched, k, Missing))
  {
    MergedAt(dvr, sched, k);
    d := dvr[LastAdmitted(dvr, k).value];
  }

  /** A row showing a merged record shows the DVR row and schedule flag the record was made from. */
  lemma RowFromRec(v: RowView, k: string, r: Rec, d: DvrRow, selected: string, above: string)
    requires r == Rec(k, d.freqid, d.name, d.visible, selected)
    requires Shows(v, k, r) && ShowsFreq(v, r.freqid, above)
    ensures ShowsSource(v, d, selected, above)
  {
  }

  /**
   * The report the script prints, as row decisions: one row per key some DVR row normalises
   * to, no key twice, in ascending (major, minor) order; each row shows the last such DVR row's
   * columns with its name stripped, the schedule store's flag ("missing" when no schedule row
   * names the key), a highlight exactly when the two flags differ, and a frequency cell blanked
   * exactly when the frequency equals the previous row's.
   */
  method Reconcile(dvr: seq<DvrRow>, sched: seq<SchedRow>) returns (views: seq<RowView>)
    ensures forall k :: LastAdmitted(dvr, k).Some? <==> exists i :: 0 <= i < |views| && views[i].channum == k
    ensures forall i, j :: 0 <= i < j < |views| ==> views[i].channum != views[j].channum
    ensures forall i, j :: 0 <= i < j < |views| ==> KeyLe(views[i].channum, views[j].channum)
    ensures forall i {:trigger views[i]} :: 0 <= i < |views| ==>
      && LastAdmitted(dvr, views[i].channum).Some?
      && ShowsSource(views[i], dvr[LastAdmitted(dvr, views[i].channum).value],
                     SelectedOr(sched, views[i].channum, Missing), FreqAbove(dvr, views, i))
    ensures forall i, j :: 0 <= i < j < |views| && SameKeyValue(views[i].channum, views[j].channum) ==>
      FirstGivenBefore(dvr, views[i].channum, views[j].channum)
  {
    var t := LoadDvr(dvr);
    t := MergeSchedule(t, sched);
    var m := t;
    assert m == Merged(dvr, sched);
    t := SortTable(m);
    views := RenderRows(t);
    ShownKeys(dvr, sched, t, views);
    ShownInOrder(dvr, sched, t, views);
    forall i | 0 <= i < |views| {
      ShownCells(dvr, sched, t, views, i);
    }
    ShownTiesInLoadOrder(dvr, sched, m, t, views);
  }
}
