/**
 * The first loop of mythweb/mythweb_chan_recon.php: reading the DVR's channel rows into
 * `$myth_channels`, keyed by normalised channel number.
 */
module DvrLoad {
  import opened Optional
  import opened Channels

  /**
   * The array the loop has built after reading `rows`, one row at a time in input order.
   * Every stored record carries its own key as `channum` and the flag "missing".
   */
  function LoadSpec(rows: seq<DvrRow>): (t: Table)
    ensures Valid(t)
    ensures forall k :: k in t.rows ==> t.rows[k].channum == k && t.rows[k].xmltvSelected == Missing && '.' in k
  {
    if rows == [] then EmptyTable()
    else
      var t := LoadSpec(rows[..|rows| - 1]);
      var row := rows[|rows| - 1];
      match NormalizeChannum(row.channum)
      case None => t
      case Some(k) => Put(t, k, MakeRec(row, k))
  }

  /** The key each row normalises to, or None for a skipped row. */
  function KeysOf(rows: seq<DvrRow>): (ks: seq<Option<string>>)
    ensures |ks| == |rows|
    ensures forall j :: 0 <= j < |rows| ==> ks[j] == NormalizeChannum(rows[j].channum)
  {
    seq(|rows|, j requires 0 <= j < |rows| => NormalizeChannum(rows[j].channum))
  }

  /** Index of the last entry of `ks` equal to `Some(k)`, if any. */
  function LastIndexOf(ks: seq<Option<string>>, k: string): (r: Option<nat>)
    ensures r.None? <==> forall j :: 0 <= j < |ks| ==> ks[j] != Some(k)
    ensures r.Some? ==> r.value < |ks| && ks[r.value] == Some(k)
    ensures r.Some? ==> forall j :: r.value < j < |ks| ==> ks[j] != Some(k)
  {
    if ks == [] then None
    else if ks[|ks| - 1] == Some(k) then Some(|ks| - 1)
    else LastIndexOf(ks[..|ks| - 1], k)
  }

  /** Index of the last row of `rows` whose channel number normalises to `k`, if any. */
  function LastAdmitted(rows: seq<DvrRow>, k: string): (r: Option<nat>)
    ensures r.None? <==> forall j :: 0 <= j < |rows| ==> NormalizeChannum(rows[j].channum) != Some(k)
    ensures r.Some? ==> r.value < |rows| && NormalizeChannum(rows[r.value].channum) == Some(k)
    ensures r.Some? ==> forall j :: r.value < j < |rows| ==> NormalizeChannum(rows[j].channum) != Some(k)
  {
    LastIndexOf(KeysOf(rows), k)
  }

  /**
   * A key is present exactly when some row normalises to it, and its record is made from the
   * LAST such row: a later row with the same key replaces an earlier one.
   */
  lemma {:induction false} LoadAt(rows: seq<DvrRow>, k: string)
    ensures k in LoadSpec(rows).rows <==> LastAdmitted(rows, k).Some?
    ensures k in LoadSpec(rows).rows ==> LoadSpec(rows).rows[k] == MakeRec(rows[LastAdmitted(rows, k).value], k)
  {
    if rows != [] {
      var n := |rows| - 1;
      var init := rows[..n];
      LoadAt(init, k);
      var ks := KeysOf(rows);
      assert KeysOf(init) == ks[..n];
      assert ks[n] == NormalizeChannum(rows[n].channum);
      if ks[n] != Some(k) {
        assert LastAdmitted(rows, k) == LastAdmitted(init, k);
        if k in LoadSpec(init).rows {
          var i := LastAdmitted(init, k).value;
          assert init[i] == rows[i];
        }
      }
    }
  }

  /** Index of the first entry of `ks` equal to `Some(k)`, if any. */
  function FirstIndexOf(ks: seq<Option<string>>, k: string): (r: Option<nat>)
    ensures r.Some? ==> r.value < |ks| && ks[r.value] == Some(k)
  {
    if ks == [] then None
    else
      match FirstIndexOf(ks[..|ks| - 1], k)
      case Some(i) => Some(i)
      case None => if ks[|ks| - 1] == Some(k) then Some(|ks| - 1) else None
  }

  /** `FirstIndexOf` finds a match exactly when there is one, and no earlier entry matches. */
  lemma {:induction false} FirstIndexOfIsFirst(ks: seq<Option<string>>, k: string)
    ensures FirstIndexOf(ks, k).None? <==> forall j :: 0 <= j < |ks| ==> ks[j] != Some(k)
    ensures FirstIndexOf(ks, k).Some? ==> forall j :: 0 <= j < FirstIndexOf(ks, k).value ==> ks[j] != Some(k)
  {
    if ks != [] {
      var n := |ks| - 1;
      FirstIndexOfIsFirst(ks[..n], k);
      assert forall j :: 0 <= j < n ==> ks[..n][j] == ks[j];
    }
  }

  /** Index of the first row of `rows` whose channel number normalises to `k`, if any. */
  function FirstAdmitted(rows: seq<DvrRow>, k: string): Option<nat> {
    FirstIndexOf(KeysOf(rows), k)
  }

  /** Some row gives key `a` before any row gives key `b`, and some row gives `b`. */
  predicate FirstGivenBefore(rows: seq<DvrRow>, a: string, b: string) {
    && FirstAdmitted(rows, a).Some? && FirstAdmitted(rows, b).Some?
    && FirstAdmitted(rows, a).value < FirstAdmitted(rows, b).value
  }

  /** Every key of `order` has a first row in `rows`, and the keys come in the order of those rows. */
  ghost predicate InFirstRowOrder(rows: seq<DvrRow>, order: seq<string>) {
    && (forall i :: 0 <= i < |order| ==> FirstAdmitted(rows, order[i]).Some?)
    && (forall i, j :: 0 <= i < j < |order| ==> FirstAdmitted(rows, order[i]).value < FirstAdmitted(rows, order[j]).value)
  }

  /**
   * The array lists its keys in the order of the rows that first gave them: a later row
   * with a key already present replaces the record but does not move the key.
   */
  lemma {:induction false} LoadOrder(rows: seq<DvrRow>)
    ensures forall i :: 0 <= i < |LoadSpec(rows).order| ==> FirstAdmitted(rows, LoadSpec(rows).order[i]).Some?
    ensures forall i, j :: 0 <= i < j < |LoadSpec(rows).order| ==>
      FirstAdmitted(rows, LoadSpec(rows).order[i]).value < FirstAdmitted(rows, LoadSpec(rows).order[j]).value
  {
    if rows != [] {
      LoadOrder(rows[..|rows| - 1]);
      LoadOrderStep(rows);
    }
  }

  /** One more row keeps the keys in first-row order. */
  lemma LoadOrderStep(rows: seq<DvrRow>)
    requires rows != [] && InFirstRowOrder(rows[..|rows| - 1], LoadSpec(rows[..|rows| - 1]).order)
    ensures InFirstRowOrder(rows, LoadSpec(rows).order)
  {
    var order := LoadSpec(rows[..|rows| - 1]).order;
    var extra := LoadStepAppends(rows);
    FirstAdmittedAllExtend(rows, order);
    AppendInFirstRowOrder(rows, order, extra);
  }

  /** Keys some earlier row gives keep their first rows when one more row follows. */
  lemma FirstAdmittedAllExtend(rows: seq<DvrRow>, order: seq<string>)
    requires rows != [] && forall i :: 0 <= i < |order| ==> FirstAdmitted(rows[..|rows| - 1], order[i]).Some?
    ensures forall i :: 0 <= i < |order| ==> FirstAdmitted(rows, order[i]) == FirstAdmitted(rows[..|rows| - 1], order[i])
  {
    forall i | 0 <= i < |order|
      ensures FirstAdmitted(rows, order[i]) == FirstAdmitted(rows[..|rows| - 1], order[i])
    {
      FirstAdmittedExtends(rows, order[i]);
    }
  }

  /** Keys whose first rows are unchanged, followed by keys first given by the new last row, stay in first-row order. */
  lemma AppendInFirstRowOrder(rows: seq<DvrRow>, order: seq<string>, extra: seq<string>)
    requires rows != [] && InFirstRowOrder(rows[..|rows| - 1], order)
    requires forall i :: 0 <= i < |order| ==> FirstAdmitted(rows, order[i]) == FirstAdmitted(rows[..|rows| - 1], order[i])
    requires |extra| <= 1 && forall i :: 0 <= i < |extra| ==> FirstAdmitted(rows, extra[i]) == Some(|rows| - 1)
    ensures InFirstRowOrder(rows, order + extra)
  {
    var init := rows[..|rows| - 1];
    var o := order + extra;
    forall i | 0 <= i < |o|
      ensures FirstAdmitted(rows, o[i]).Some?
    {
      if i < |order| {
        assert o[i] == order[i];
      } else {
        assert o[i] == extra[i - |order|];
      }
    }
    forall i, j | 0 <= i < j < |o|
      ensures FirstAdmitted(rows, o[i]).value < FirstAdmitted(rows, o[j]).value
    {
      assert o[i] == order[i];
      if j < |order| {
        assert o[j] == order[j];
      } else {
        assert o[j] == extra[j - |order|];
        assert FirstAdmitted(init, order[i]).value < |init|;
      }
    }
  }

  /** One more row appends at most its own key to the order, and only when no earlier row gave it. */
  lemma LoadStepAppends(rows: seq<DvrRow>) returns (extra: seq<string>)
    requires rows != []
    ensures |extra| <= 1
    ensures LoadSpec(rows).order == LoadSpec(rows[..|rows| - 1]).order + extra
    ensures forall i :: 0 <= i < |extra| ==> FirstAdmitted(rows, extra[i]) == Some(|rows| - 1)
  {
    var n := |rows| - 1;
    var init := rows[..n];
    var t := LoadSpec(init);
    var key := NormalizeChannum(rows[n].channum);
    if key.Some? && key.value !in t.rows {
      LoadAt(init, key.value);
      FirstAdmittedNew(rows, key.value);
      extra := [key.value];
    } else {
      extra := [];
    }
  }

  /** A key some earlier row gives keeps its first row when more rows follow. */
  lemma FirstAdmittedExtends(rows: seq<DvrRow>, k: string)
    requires rows != [] && FirstAdmitted(rows[..|rows| - 1], k).Some?
    ensures FirstAdmitted(rows, k) == FirstAdmitted(rows[..|rows| - 1], k)
  {
    assert KeysOf(rows[..|rows| - 1]) == KeysOf(rows)[..|rows| - 1];
  }

  /** A key no earlier row gives has the last row as its first. */
  lemma FirstAdmittedNew(rows: seq<DvrRow>, k: string)
    requires rows != [] && NormalizeChannum(rows[|rows| - 1].channum) == Some(k)
    requires LastAdmitted(rows[..|rows| - 1], k).None?
    ensures FirstAdmitted(rows, k) == Some(|rows| - 1)
  {
    assert KeysOf(rows[..|rows| - 1]) == KeysOf(rows)[..|rows| - 1];
  }

  /** The rows the loader admits: those whose number contains a `_` and does not start with `_`. */
  function Admitted(rows: seq<DvrRow>): (a: seq<DvrRow>)
    ensures forall r :: r in a <==> r in rows && NormalizeChannum(r.channum).Some?
    ensures forall r :: multiset(a)[r] == if NormalizeChannum(r.channum).Some? then multiset(rows)[r] else 0
    ensures |a| <= |rows|
  {
    if rows == [] then []
    else
      var n := |rows| - 1;
      assert rows == rows[..n] + [rows[n]];
      if NormalizeChannum(rows[n].channum).Some? then Admitted(rows[..n]) + [rows[n]]
      else Admitted(rows[..n])
  }

  /**
   * `Admitted` keeps the input order: the rows it keeps from the first `n` input rows are
   * exactly the first rows it keeps from all of them.
   */
  lemma {:induction false} AdmittedPrefix(rows: seq<DvrRow>, n: nat)
    requires n <= |rows|
    ensures Admitted(rows[..n]) <= Admitted(rows)
  {
    if n < |rows| {
      var init := rows[..|rows| - 1];
      AdmittedPrefix(init, n);
      assert init[..n] == rows[..n];
    } else {
      assert rows[..n] == rows;
    }
  }

  /** Skipped rows ("analog" and "borked" numbers) leave no trace: loading only the admitted rows gives the same array. */
  lemma {:induction false} LoadIgnoresSkipped(rows: seq<DvrRow>)
    ensures LoadSpec(rows) == LoadSpec(Admitted(rows))
  {
    if rows != [] {
      var init := rows[..|rows| - 1];
      LoadIgnoresSkipped(init);
      var a := Admitted(rows);
      if NormalizeChannum(rows[|rows| - 1].channum).Some? {
        assert a[..|a| - 1] == Admitted(init);
      }
    }
  }

  /** A row with no `_`, or with `_` first, never contributes a key. */
  lemma SkippedRowAddsNoKey(rows: seq<DvrRow>, i: nat, k: string)
    requires i < |rows| && ('_' !in rows[i].channum || rows[i].channum[0] == '_')
    requires k in LoadSpec(rows).rows
    ensures LastAdmitted(rows, k).Some? && LastAdmitted(rows, k).value != i
  {
    LoadAt(rows, k);
  }

  /** The DVR loop: `$myth_channels[$key] = $row` for every admitted row, in input order. */
  method LoadDvr(rows: seq<DvrRow>) returns (t: Table)
    ensures t == LoadSpec(rows)
  {
    t := Table([], map[]);
    var i := 0;
    while i < |rows|
      invariant 0 <= i <= |rows|
      invariant t == LoadSpec(rows[..i])
    {
      var row := rows[i];
      var key := NormalizeChannum(row.channum);
      if key.Some? {
        t := Put(t, key.value, MakeRec(row, key.value));
      }
      assert rows[..i + 1][..i] == rows[..i];
      i := i + 1;
    }
    assert rows[..i] == rows;
  }
}
