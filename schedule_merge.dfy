/**
 * The second loop of mythweb/mythweb_chan_recon.php: copying the schedule store's
 * `selected` flag onto the channels the DVR loader stored.
 */
module ScheduleMerge {
  import opened Optional
  import opened Channels

  /** One iteration: a row with a `.` in its number whose number is a key overwrites that record's flag. */
  function MergeRow(t: Table, r: SchedRow): (u: Table)
    ensures u.order == t.order && u.rows.Keys == t.rows.Keys
  {
    if '.' !in r.channum then t
    else if r.channum !in t.rows then t
    else Table(t.order, t.rows[r.channum := t.rows[r.channum].(xmltvSelected := r.selected)])
  }

  /**
   * The array after merging `sched`, one row at a time in input order. The merge never adds or
   * removes a key and never moves one.
   */
  function MergeSpec(t: Table, sched: seq<SchedRow>): (u: Table)
    ensures u.order == t.order && u.rows.Keys == t.rows.Keys
    ensures Valid(t) ==> Valid(u)
  {
    if sched == [] then t
    else MergeRow(MergeSpec(t, sched[..|sched| - 1]), sched[|sched| - 1])
  }

  /** Index of the last schedule row that the merge applies to key `k`, if any. */
  function LastMatch(sched: seq<SchedRow>, k: string): (r: Option<nat>)
    ensures r.None? <==> ('.' !in k || forall j :: 0 <= j < |sched| ==> sched[j].channum != k)
    ensures r.Some? ==> r.value < |sched| && sched[r.value].channum == k && '.' in k
    ensures r.Some? ==> forall j :: r.value < j < |sched| ==> sched[j].channum != k
  {
    if sched == [] then None
    else if '.' in sched[|sched| - 1].channum && sched[|sched| - 1].channum == k then Some(|sched| - 1)
    else LastMatch(sched[..|sched| - 1], k)
  }

  /** The flag the last matching schedule row carries, or `default` when no row matches. */
  function SelectedOr(sched: seq<SchedRow>, k: string, default: string): (flag: string)
    ensures flag == default || exists j :: 0 <= j < |sched| && sched[j].channum == k && sched[j].selected == flag
    ensures ('.' !in k || forall j :: 0 <= j < |sched| ==> sched[j].channum != k) ==> flag == default
    ensures '.' in k && (exists j :: 0 <= j < |sched| && sched[j].channum == k) ==>
      exists j :: 0 <= j < |sched| && sched[j].channum == k && sched[j].selected == flag &&
        forall j' :: j < j' < |sched| ==> sched[j'].channum != k
  {
    match LastMatch(sched, k)
    case Some(i) => sched[i].selected
    case None => default
  }

  /**
   * Per key, the merge changes only the flag, to the last matching schedule row's value; a key
   * no row matches keeps the flag it had.
   */
  lemma {:induction false} MergeAt(t: Table, sched: seq<SchedRow>, k: string)
    requires k in t.rows
    ensures k in MergeSpec(t, sched).rows
    ensures MergeSpec(t, sched).rows[k] == t.rows[k].(xmltvSelected := SelectedOr(sched, k, t.rows[k].xmltvSelected))
  {
    if sched != [] {
      var n := |sched| - 1;
      var init := sched[..n];
      MergeAt(t, init, k);
      if !('.' in sched[n].channum && sched[n].channum == k) {
        assert LastMatch(sched, k) == LastMatch(init, k);
        if LastMatch(init, k).Some? {
          assert init[LastMatch(init, k).value] == sched[LastMatch(init, k).value];
        }
      }
    }
  }

  /** The whole merged array: same order, same keys, each record with its flag replaced as `MergeAt` says. */
  lemma MergeCharacterized(t: Table, sched: seq<SchedRow>)
    ensures MergeSpec(t, sched) ==
            Table(t.order, map k | k in t.rows :: t.rows[k].(xmltvSelected := SelectedOr(sched, k, t.rows[k].xmltvSelected)))
  {
    var u := MergeSpec(t, sched);
    forall k | k in t.rows
      ensures u.rows[k] == t.rows[k].(xmltvSelected := SelectedOr(sched, k, t.rows[k].xmltvSelected))
    {
      MergeAt(t, sched, k);
    }
  }

  /** The schedule loop: overwrite the flag of every existing key a dotted schedule row names. */
  method MergeSchedule(t: Table, sched: seq<SchedRow>) returns (u: Table)
    ensures u == MergeSpec(t, sched)
  {
    u := t;
    var i := 0;
    while i < |sched|
      invariant 0 <= i <= |sched|
      invariant u == MergeSpec(t, sched[..i])
    {
      var row := sched[i];
      if '.' in row.channum && row.channum in u.rows {
        u := u.(rows := u.rows[row.channum := u.rows[row.channum].(xmltvSelected := row.selected)]);
      }
      assert sched[..i + 1][..i] == sched[..i];
      i := i + 1;
    }
    assert sched[..i] == sched;
  }
}
