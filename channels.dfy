/**
 * The records the reconciliation script handles and the associative array it builds
 * (`$myth_channels` in mythweb/mythweb_chan_recon.php), with the normalisation of the
 * DVR's channel numbers into `major.minor` keys.
 */
module Channels {
  import opened Optional
  import opened Text

  /** A row of the DVR's `channel` table, reduced to the columns the script reads. */
  datatype DvrRow = DvrRow(channum: string, freqid: string, name: string, visible: string)

  /** A row of the schedule store's `channels` table. */
  datatype SchedRow = SchedRow(channum: string, selected: string)

  /** A stored channel: the DVR row with its normalised number and the schedule store's flag. */
  datatype Rec = Rec(channum: string, freqid: string, name: string, visible: string, xmltvSelected: string)

  /** The flag a channel carries until the schedule store is found to list it. */
  const Missing: string := "missing"

  /**
   * The key the DVR loader stores a row under, or None for a row it skips: an "analog"
   * number (no `_`) or a "borked" one (starting with `_`). Otherwise the first two
   * `_`-separated fields joined by a `.`.
   */
  function NormalizeChannum(raw: string): (key: Option<string>)
    ensures key.None? <==> ('_' !in raw || raw[0] == '_')
    ensures key.Some? ==> '.' in key.value && '_' !in key.value
  {
    if '_' !in raw then None
    else if raw[0] == '_' then None
    else Some(Field0(raw, '_') + "." + Field1(raw, '_'))
  }

  /** A DVR channel number is `a_b`, possibly followed by further `_` fields, with `a` non-empty. */
  lemma NormalizeJoin(a: string, b: string, tail: string)
    requires a != [] && '_' !in a && '_' !in b
    requires tail == [] || tail[0] == '_'
    ensures NormalizeChannum(a + "_" + b + tail) == Some(a + "." + b)
  {
    FieldsOfJoin(a, '_', b, tail);
    assert (a + "_" + b + tail)[0] == a[0];
  }

  /** Every admitted number is the key's two parts joined by `_`, followed by ignored fields. */
  lemma NormalizeSplit(raw: string)
    requires NormalizeChannum(raw).Some?
    ensures var a, b := Field0(raw, '_'), Field1(raw, '_');
            a != [] && raw == a + "_" + b + FieldsTail(raw, '_') && NormalizeChannum(raw) == Some(a + "." + b)
  {
    JoinOfFields(raw, '_');
  }

  /** The record the DVR loader stores for `row` under `key`. */
  function MakeRec(row: DvrRow, key: string): (r: Rec)
    ensures r.channum == key && r.xmltvSelected == Missing
  {
    Rec(key, row.freqid, row.name, row.visible, Missing)
  }

  /** A key the comparator can read: two dot-separated fields that are both digit strings. */
  predicate WellFormedKey(k: string) {
    '.' in k && IsDigits(Field0(k, '.')) && IsDigits(Field1(k, '.'))
  }

  /** The major part of a key, as the number PHP compares it as when `WellFormedKey(k)`. */
  function Major(k: string): (n: nat)
    ensures n == DecimalValue(Field0(k, '.'))
  {
    FirstFieldValue(k, '.');
    FieldValueOnto(k, '.', 0)
  }

  /** The minor part of a key, as the number PHP compares it as when `WellFormedKey(k)`. */
  function Minor(k: string): (n: nat)
    ensures '.' in k ==> n == DecimalValue(Field1(k, '.'))
    ensures '.' !in k ==> n == 0
  {
    SecondFieldValueIs(k, '.');
    SecondFieldValue(k, '.')
  }

  /**
   * The comparator splits a normalised key back into the DVR number's two fields, so the
   * sort orders channels by the numbers the DVR gave them.
   */
  lemma KeyParts(raw: string)
    requires NormalizeChannum(raw).Some? && IsDigits(Field0(raw, '_')) && IsDigits(Field1(raw, '_'))
    ensures var k := NormalizeChannum(raw).value;
            WellFormedKey(k) && Major(k) == DecimalValue(Field0(raw, '_')) && Minor(k) == DecimalValue(Field1(raw, '_'))
  {
    DigitKey(Field0(raw, '_'), Field1(raw, '_'));
  }

  /** The key `a.b` made of two digit strings is well formed, with parts `a` and `b` read as numbers. */
  lemma DigitKey(a: string, b: string)
    requires IsDigits(a) && IsDigits(b)
    ensures WellFormedKey(a + "." + b)
    ensures Major(a + "." + b) == DecimalValue(a) && Minor(a + "." + b) == DecimalValue(b)
  {
    assert '.' !in a by { assert forall i :: 0 <= i < |a| ==> IsDigit(a[i]); }
    assert '.' !in b by { assert forall i :: 0 <= i < |b| ==> IsDigit(b[i]); }
    FieldsOfJoin(a, '.', b, []);
    assert a + "." + b + [] == a + "." + b;
    KeyValues(a, b);
  }

  /** Reading the parts of `a.b` back as numbers. */
  lemma KeyValues(a: string, b: string)
    requires '.' !in a && '.' !in b
    ensures Major(a + "." + b) == DecimalValue(a) && Minor(a + "." + b) == DecimalValue(b)
  {
    assert a + "." + b == a + ("." + b);
    FieldValueOfField(a, '.', "." + b, 0);
    SecondFieldValueAfter(a, '.', b);
    assert b + [] == b;
    FieldValueOfField(b, '.', [], 0);
  }

  /**
   * A PHP associative array from channel numbers to records: the keys in insertion order,
   * and the key-to-record map.
   */
  datatype Table = Table(order: seq<string>, rows: map<string, Rec>)

  /** No key occurs twice. */
  ghost predicate Distinct(keys: seq<string>) {
    forall i, j :: 0 <= i < j < |keys| ==> keys[i] != keys[j]
  }

  /** The order lists every key of the map exactly once. */
  ghost predicate Valid(t: Table) {
    && Distinct(t.order)
    && (forall k :: k in t.rows <==> k in t.order)
  }

  /** The empty array `[]`. */
  function EmptyTable(): (t: Table)
    ensures Valid(t) && t.rows == map[]
  {
    Table([], map[])
  }

  /**
   * `$t[$k] = $r`: an existing key keeps its position and gets the new record, a new key
   * is appended at the end.
   */
  function Put(t: Table, k: string, r: Rec): (u: Table)
    requires Valid(t)
    ensures Valid(u)
    ensures u.rows == t.rows[k := r]
    ensures k in t.rows ==> u.order == t.order
    ensures k !in t.rows ==> u.order == t.order + [k]
  {
    if k in t.rows then Table(t.order, t.rows[k := r])
    else Table(t.order + [k], t.rows[k := r])
  }
}
