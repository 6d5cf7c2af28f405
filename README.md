# Channel reconciliation (mythweb_chan_recon.php), modelled in Dafny

`mythweb/mythweb_chan_recon.php` compares two channel lists. One is the MythTV DVR's
`channel` table. The other is the XMLTV schedule store's `channels` table. It prints one
HTML row per distinct `major.minor` number that the DVR's `a_b` channel numbers normalise
to. This project models the script's in-memory pipeline, which has
four steps:

1. **DVR load** (`DvrLoad`). Every DVR row whose `channum` contains a `_` and does not
   start with `_` is stored in the associative array `$myth_channels`. Its key is
   `major.minor`, built from the first two `_` fields. Its `channum` is rewritten to that
   key and its `XMLTV_selected` is set to `"missing"`. A later row with the same key
   replaces the earlier one and keeps the earlier one's position, so the keys stay in the
   order of the rows that first gave them. `KeysOf` lists each row's key (`None` for a
   skipped row) in input order; the load's lemmas are stated over it.
2. **Schedule merge** (`ScheduleMerge`). Every schedule row whose number contains a `.`
   and is already a key overwrites that record's `XMLTV_selected`. No key is ever added
   or removed.
3. **Sort** (`ChannelSort`). `uasort` orders the array by major part, then by minor
   part. Every key keeps its record.
4. **Render** (`RowRender`). Each row is highlighted exactly when `visible` differs from
   `XMLTV_selected`. The frequency cell is blank exactly when the row's `freqid` equals
   the previous row's `freqid` (`''` before the first row), whatever that row's cell shows. A name of the form `digits.digits rest` is shown as `rest`.
   `FreqIds` is the frequency column in the array's order and `FreqCells` the frequency
   cells of the rendered rows; the blanking is stated between the two.

`Reconcile.Reconcile` runs the four steps in order. It states the whole report in terms
of the two input tables: which rows appear, their order by (major, minor), and, among rows
whose keys tie on (major, minor), the order in which the DVR first gave those keys, as PHP
8's stable `uasort` leaves them.

The associative array is a PHP value that the loops reassign. It is modelled as the
datatype `Channels.Table`: the keys in insertion order plus a key-to-record map. Each
loop is a `method` with a `while` loop. The method is proved equal to a fold function
(`LoadSpec`, `MergeSpec`). Lemmas about that fold state what the loop promises.
`uasort` is modelled as a stable insertion sort over the key order (`SortKeys`). It is
proved sorted, a permutation, and order-preserving within every class of equal keys.
The render loop carries `$prev_freq` exactly as the script does. It is proved to blank
exactly the frequencies equal to the previous row's `freqid`, and `FillBlanksRestores` shows the blanking loses no
information.

The two database queries are inputs: `seq<DvrRow>` in `ORDER BY chanid` order, and
`seq<SchedRow>` in the store's order. The HTML output is represented by `RowView`
values, with a blank frequency cell as `None`.

`$achan <=> $bchan` and `$achan != $bchan` compare two numeric strings as numbers, not as
strings, so the model compares major and minor parts as naturals (`Major`, `Minor`).
`KeyParts` and `Reconcile.KeyOrderIsDvrOrder` tie that order to the numbers in the DVR's
own `a_b` channel numbers.

## Model

| member | source | states |
|---|---|---|
| `Text.IndexOf` | mythweb/mythweb_chan_recon.php:56 | the first position of the character, or the length when it does not occur (`strpos(...) === false`) |
| `Text.Field0` | mythweb/mythweb_chan_recon.php:59 | the first `explode` field is a separator-free prefix, and it is shorter than the string exactly when the separator occurs |
| `Text.Field1` | mythweb/mythweb_chan_recon.php:59 | the second `explode` field contains no separator |
| `Text.FieldsOfJoin` | mythweb/mythweb_chan_recon.php:59 | the first two `explode` fields of `a sep b tail` are `a` and `b`, whatever further fields `tail` holds |
| `Text.JoinOfFields` | mythweb/mythweb_chan_recon.php:59 | conversely, a string holding the separator is its first two fields joined by it, followed by the rest |
| `Text.FieldValueOfField` | mythweb/mythweb_chan_recon.php:81 | reading the first `.` field as a number stops at the separator |
| `Text.SecondFieldValueAfter` | mythweb/mythweb_chan_recon.php:81 | the second field read as a number is the digits right after the first separator |
| `Text.FirstFieldValue` | mythweb/mythweb_chan_recon.php:81 | the scan of the first field reads exactly the value of `explode`'s first field |
| `Text.SecondFieldValueIs` | mythweb/mythweb_chan_recon.php:81 | the scan of the second field reads exactly the value of `explode`'s second field, and 0 when there is no separator |
| `Channels.NormalizeChannum` | mythweb/mythweb_chan_recon.php:55-60 | a row is skipped exactly when its number has no `_` or starts with `_`; an admitted key contains `.` and no `_` |
| `Channels.NormalizeJoin` | mythweb/mythweb_chan_recon.php:59-60 | `a_b` followed by any further `_` fields normalises to `a.b` |
| `Channels.NormalizeSplit` | mythweb/mythweb_chan_recon.php:56-60 | every admitted number is `a_b` plus ignored fields, with `a` non-empty, and its key is `a.b` |
| `Channels.MakeRec` | mythweb/mythweb_chan_recon.php:61-62 | the stored record's `channum` is its key and its `XMLTV_selected` is `"missing"` |
| `Channels.Major` | mythweb/mythweb_chan_recon.php:81 | the major part is the numeric value of the key's first `.` field |
| `Channels.Minor` | mythweb/mythweb_chan_recon.php:81 | the minor part is the numeric value of the key's second `.` field, and 0 for a key without `.` |
| `Channels.KeyParts` | mythweb/mythweb_chan_recon.php:59-60 | for a DVR number of two digit fields, the key is well formed and its major and minor parts are those fields' numeric values |
| `Channels.DigitKey` | mythweb/mythweb_chan_recon.php:81 | `explode('.')` of `a.b` built from digit strings yields two digit strings whose values are those of `a` and `b` |
| `Channels.KeyValues` | mythweb/mythweb_chan_recon.php:81 | the comparator reads `a` and `b` back from `a.b` when neither holds a `.` |
| `Channels.EmptyTable` | mythweb/mythweb_chan_recon.php:52 | `[]` has no keys and is a valid array |
| `Channels.Put` | mythweb/mythweb_chan_recon.php:64 | assigning a key keeps the array valid, replaces the record, keeps an existing key's position and appends a new key |
| `DvrLoad.LoadSpec` | mythweb/mythweb_chan_recon.php:54-65 | the loaded array is valid and every record's `channum` is its own key, with flag `"missing"` and a `.` in the key |
| `DvrLoad.LastIndexOf` | mythweb/mythweb_chan_recon.php:64 | the last index holding the key: present exactly when some entry matches, and no later entry matches |
| `DvrLoad.LastAdmitted` | mythweb/mythweb_chan_recon.php:64 | the row whose record a key ends up with: none exactly when no row normalises to the key, otherwise a row that does, and no later row does |
| `DvrLoad.FirstIndexOf` | mythweb/mythweb_chan_recon.php:64 | a found index holds the key |
| `DvrLoad.FirstIndexOfIsFirst` | mythweb/mythweb_chan_recon.php:64 | the first index holding the key: none exactly when no entry matches, and no earlier entry matches |
| `DvrLoad.LoadAt` | mythweb/mythweb_chan_recon.php:54-65 | a key is stored exactly when some row normalises to it, and its record is made from the last such row |
| `DvrLoad.Admitted` | mythweb/mythweb_chan_recon.php:56-57 | each admissible row is kept as often as it occurs, every other row is dropped, and never more rows than given |
| `DvrLoad.AdmittedPrefix` | mythweb/mythweb_chan_recon.php:54-57 | the rows kept from a prefix of the input are a prefix of those kept from all of it, so the kept rows keep their order |
| `DvrLoad.LoadOrder` | mythweb/mythweb_chan_recon.php:54-65 | every key has a first row, and the array lists the keys in the order of their first rows |
| `DvrLoad.LoadStepAppends` | mythweb/mythweb_chan_recon.php:64 | one more row appends at most one key to the order, and only a key whose first row it is |
| `DvrLoad.AppendInFirstRowOrder` | mythweb/mythweb_chan_recon.php:64 | keys with unchanged first rows followed by the new row's own key stay in first-row order |
| `DvrLoad.FirstAdmittedExtends` | mythweb/mythweb_chan_recon.php:64 | a key an earlier row gives keeps its first row when more rows follow |
| `DvrLoad.FirstAdmittedNew` | mythweb/mythweb_chan_recon.php:64 | a key no earlier row gives has the new row as its first |
| `DvrLoad.LoadIgnoresSkipped` | mythweb/mythweb_chan_recon.php:56-57 | loading all rows equals loading only the admitted rows, so analog and borked rows leave no trace |
| `DvrLoad.SkippedRowAddsNoKey` | mythweb/mythweb_chan_recon.php:56-57 | no stored key comes from a skipped row |
| `DvrLoad.LoadDvr` | mythweb/mythweb_chan_recon.php:54-65 | the load loop builds exactly `LoadSpec` of the rows |
| `ScheduleMerge.MergeRow` | mythweb/mythweb_chan_recon.php:73-77 | one schedule row never changes the key order or the key set |
| `ScheduleMerge.MergeSpec` | mythweb/mythweb_chan_recon.php:72-78 | the whole merge keeps the key order, the key set and validity |
| `ScheduleMerge.LastMatch` | mythweb/mythweb_chan_recon.php:74-77 | the last schedule row with a dotted number equal to the key; none when the key has no `.` or no row names it |
| `ScheduleMerge.SelectedOr` | mythweb/mythweb_chan_recon.php:74-77 | the flag is the default exactly when the key has no `.` or no row names it (or the matching row's `selected` equals it); otherwise it is the `selected` of a row naming the key that no later row names, so the last matching row wins |
| `ScheduleMerge.MergeAt` | mythweb/mythweb_chan_recon.php:72-78 | a merged record differs only in its flag, which is the last matching row's `selected`, or unchanged when no row matches |
| `ScheduleMerge.MergeCharacterized` | mythweb/mythweb_chan_recon.php:72-78 | the merged array, as a whole: same order, and every record with its flag replaced as `MergeAt` says |
| `ScheduleMerge.MergeSchedule` | mythweb/mythweb_chan_recon.php:72-78 | the merge loop computes exactly `MergeSpec` |
| `ChannelSort.Spaceship` | mythweb/mythweb_chan_recon.php:84-85 | `<=>` on numbers is -1, 0 or 1, negative exactly when less and zero exactly when equal |
| `ChannelSort.SortKeyParts` | mythweb/mythweb_chan_recon.php:81 | the pair a record is sorted by is its key's `Major` and `Minor` parts |
| `ChannelSort.Compare` | mythweb/mythweb_chan_recon.php:80-86 | the comparator is -1, 0 or 1, zero exactly on equal (major, minor) pairs and negative exactly when the pair is lexicographically smaller |
| `ChannelSort.CompareIsTotalPreorder` | mythweb/mythweb_chan_recon.php:80-86 | the comparator is antisymmetric, transitive and reflexive, as `uasort` requires |
| `ChannelSort.ClassOfConcat` | mythweb/mythweb_chan_recon.php:80 | the keys of one sort class in a concatenation are those of each part, in order |
| `ChannelSort.ClassOfNone` | mythweb/mythweb_chan_recon.php:80 | a sequence with no key of a class has an empty class |
| `ChannelSort.ClassOfPrefix` | mythweb/mythweb_chan_recon.php:80 | the class of a prefix of the keys is a prefix of the class |
| `ChannelSort.ClassOfPrefixGrows` | mythweb/mythweb_chan_recon.php:80 | longer prefixes have classes at least as long |
| `ChannelSort.ClassPos` | mythweb/mythweb_chan_recon.php:80 | a key is the element of its class right after those of the keys before it |
| `ChannelSort.ClassIndex` | mythweb/mythweb_chan_recon.php:80 | every element of a class sits at an index whose prefix holds exactly the class elements before it |
| `ChannelSort.TiesKeepOrder` | mythweb/mythweb_chan_recon.php:80-86 | when every class is kept, two keys that compare equal come in the order they had before the sort |
| `ChannelSort.InsertSorted` | mythweb/mythweb_chan_recon.php:80-86 | inserting a key at its slot keeps the sequence sorted |
| `ChannelSort.InsertClasses` | mythweb/mythweb_chan_recon.php:80-86 | inserting at the slot puts the key at the end of its class and leaves other classes alone |
| `ChannelSort.FindSlot` | mythweb/mythweb_chan_recon.php:80-86 | finds the slot after every key comparing at most equal and before every greater key |
| `ChannelSort.InsertDistinct` | mythweb/mythweb_chan_recon.php:80 | inserting a new key keeps keys distinct |
| `ChannelSort.InsertPermutes` | mythweb/mythweb_chan_recon.php:80 | inserting a key adds exactly that key to the multiset |
| `ChannelSort.InsertKeepsClasses` | mythweb/mythweb_chan_recon.php:80-86 | after an insertion step every class lists its keys in input order |
| `ChannelSort.SortTable` | mythweb/mythweb_chan_recon.php:80-86 | `uasort` keeps every key with its record, permutes the order, sorts it by the comparator, and keeps equal keys in their original relative order |
| `ChannelSort.SortKeys` | mythweb/mythweb_chan_recon.php:80-86 | the insertion sort returns a sorted, duplicate-free permutation that is stable per class |
| `RowRender.CaptureToEnd` | mythweb/mythweb_chan_recon.php:104 | `(.*)$` fails exactly when a line feed comes before the last character; its capture is a line-feed-free prefix of the rest, at most one character short |
| `RowRender.PrefixMatch` | mythweb/mythweb_chan_recon.php:104 | a match is on a name starting with a digit, at least four characters longer than the one-line capture |
| `RowRender.StripName` | mythweb/mythweb_chan_recon.php:103-106 | the shown name is the name itself or a one-line capture from a name starting with a digit, at least four characters shorter |
| `RowRender.LeadingDigits` | mythweb/mythweb_chan_recon.php:104 | `\d+` matches exactly the leading run of digits |
| `RowRender.CaptureShape` | mythweb/mythweb_chan_recon.php:104-105 | the `(.*)$` capture is one line, and the rest of the name is that capture, possibly plus one final line feed |
| `RowRender.StripPrefixed` | mythweb/mythweb_chan_recon.php:103-106 | `digits.digits rest` (with or without a final line feed) is shown as `rest` |
| `RowRender.PrefixMatchOf` | mythweb/mythweb_chan_recon.php:104 | on `digits.digits tail` the pattern's capture is that of `(.*)$` on `tail` |
| `RowRender.LeadingDigitsOf` | mythweb/mythweb_chan_recon.php:104 | `\d+` at the start of `digits` plus a non-digit takes exactly those digits |
| `RowRender.PrefixParts` | mythweb/mythweb_chan_recon.php:104 | a matching name splits into two digit strings, the `.`, the space, and the tail the capture comes from |
| `RowRender.StripOnlyPrefixed` | mythweb/mythweb_chan_recon.php:103-106 | conversely, the pattern matches only names of the form `digits.digits rest` (possibly plus a line feed), and such a name is shown as `rest` |
| `RowRender.StripUnprefixed` | mythweb/mythweb_chan_recon.php:103-106 | a name not of the form `digits.digits rest` (possibly plus a line feed, `rest` on one line) is shown unchanged |
| `RowRender.FillBlanks` | mythweb/mythweb_chan_recon.php:98-101 | filling each blank cell from the one above gives one value per row |
| `RowRender.FillBlanksRestores` | mythweb/mythweb_chan_recon.php:98-101 | blanking loses nothing: filling the blanks back restores every row's frequency |
| `RowRender.DeduplicatedRows` | mythweb/mythweb_chan_recon.php:92-101 | blanking against the previous row's frequency, row by row, is blanking exactly the entries of the `freqid` column equal to the entry before them (`''` before the first) |
| `RowRender.RenderRows` | mythweb/mythweb_chan_recon.php:92-109 | one row per key in order, each showing its key, flags, highlight exactly when the flags differ, stripped name, and a frequency cell blank exactly when its `freqid` equals the previous row's `freqid` (`''` before the first row) |
| `Reconcile.Merged` | mythweb/mythweb_chan_recon.php:54-78 | the array after both loops is valid |
| `Reconcile.KeyOrderIsDvrOrder` | mythweb/mythweb_chan_recon.php:80-86 | for DVR numbers made of digits, the report's key order is the numeric order of the DVR's own (a, b) pairs |
| `Reconcile.MergedAt` | mythweb/mythweb_chan_recon.php:54-78 | after both loops a key is present exactly when some DVR row gives it, with the last such row's columns and the last matching schedule flag (or `"missing"`) |
| `Reconcile.ShownKeys` | mythweb/mythweb_chan_recon.php:94 | the report shows exactly the loaded keys, each once |
| `Reconcile.ShownInOrder` | mythweb/mythweb_chan_recon.php:80-94 | the report's rows ascend by (major, minor) |
| `Reconcile.ShownTiesInLoadOrder` | mythweb/mythweb_chan_recon.php:54-94 | rows whose keys tie on (major, minor) come in the order the DVR first gave their keys |
| `Reconcile.ShownTieInLoadOrder` | mythweb/mythweb_chan_recon.php:54-94 | the same for one pair of tied rows |
| `Reconcile.FreqAboveRow` | mythweb/mythweb_chan_recon.php:100-101 | the frequency compared against is the DVR frequency of the key shown on the row above |
| `Reconcile.ShownCells` | mythweb/mythweb_chan_recon.php:94-108 | each row shows its key's last DVR row, schedule flag, highlight, stripped name and frequency cell |
| `Reconcile.Reconcile` | mythweb/mythweb_chan_recon.php:54-109 | the whole report: exactly the loaded keys, once each, in (major, minor) order with ties in first-DVR-row order, each row showing what `ShownCells` states |

## Left out

- Database access is left out. The PDO connections, both SQL queries and their `chanid`
  ordering are not modelled; the query results are the inputs.
- The HTML is left out: the static markup, the `echo`ed strings, the `&nbsp` text itself
  and the client-side sortable-table script. A blank cell is `None`.
- `error_reporting` and `ini_set` (lines 40-41) are left out; they only configure
  diagnostics.
- Only the columns the script reads are modelled. `SELECT *` also carries other DVR columns
  into each record and never reads them.
- Nulls and non-string values are left out. The model uses strings only, so a NULL `freqid`
  is not modelled. In PHP, NULL compares loosely equal to `''` and would be blanked on the
  first row.
- Loose comparisons are modelled as exact string equality (`!=` on `freqid` and on
  `visible` against `XMLTV_selected`). PHP 8 would also treat numeric strings such as
  `"1"` and `"01"` as equal.
- `ChannelSort.Compare`: parts are read as plain decimal digit strings, which is what PHP
  compares for such numeric strings. Any part that is not a plain digit string is ordered
  differently from PHP. PHP also treats strings such as `1e3`, `+5` and ` 5` as numbers; the
  model counts every non-digit character as the digit 0, so it reads `1e3` as 103 where PHP
  reads 1000. PHP compares non-numeric parts as strings, which the model does not. `Channels.KeyParts` and `Reconcile.KeyOrderIsDvrOrder` state the
  numeric meaning for DVR numbers whose two fields are digit strings.
- `ChannelSort.SortTable`: assumes PHP 8's stable sort. Before PHP 8.0, the order of keys
  that compare equal (such as `5.01` and `5.1`) was unspecified.
- `RowRender.StripName`: assumes the pattern runs without the `u` modifier and that `\d`
  means ASCII digits. PCRE's `$` matching before a final line feed is modelled.
