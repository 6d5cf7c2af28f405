/**
 * The `uasort` call of mythweb/mythweb_chan_recon.php: reordering `$myth_channels` by
 * (major, minor) channel number with a user comparator, keeping every key with its record.
 */
module ChannelSort {
  import opened Text
  import opened Channels

  /** PHP's `<=>` on two numbers. */
  function Spaceship(x: nat, y: nat): (c: int)
    ensures c == -1 || c == 0 || c == 1
    ensures c < 0 <==> x < y
    ensures c == 0 <==> x == y
  {
    if x < y then -1 else if x == y then 0 else 1
  }

  /**
   * The (major, minor) pair a record is sorted by: the scans that `Major` and `Minor` are
   * defined by, used here directly so that the sort's proofs do not carry their contracts.
   */
  function SortKey(r: Rec): (nat, nat)
  {
    (FieldValueOnto(r.channum, '.', 0), SecondFieldValue(r.channum, '.'))
  }

  /** The pair a record is sorted by is its key's major and minor parts. */
  lemma SortKeyParts(r: Rec)
    ensures SortKey(r) == (Major(r.channum), Minor(r.channum))
  {
  }

  /**
   * The comparator: compare major parts, and minor parts on a tie. It orders records
   * lexicographically by their (major, minor) pair.
   */
  function Compare(a: Rec, b: Rec): (c: int)
    ensures c == -1 || c == 0 || c == 1
    ensures c == 0 <==> SortKey(a) == SortKey(b)
    ensures c < 0 <==> SortKey(a).0 < SortKey(b).0 || (SortKey(a).0 == SortKey(b).0 && SortKey(a).1 < SortKey(b).1)
  {
    var am, bm := SortKey(a).0, SortKey(b).0;
    if am != bm then Spaceship(am, bm)
    else Spaceship(SortKey(a).1, SortKey(b).1)
  }

  /** The comparator is a consistent total preorder, as `uasort` needs it to be. */
  lemma CompareIsTotalPreorder(a: Rec, b: Rec, c: Rec)
    ensures Compare(a, b) == -Compare(b, a)
    ensures Compare(a, b) <= 0 && Compare(b, c) <= 0 ==> Compare(a, c) <= 0
    ensures Compare(a, b) < 0 && Compare(b, c) <= 0 ==> Compare(a, c) < 0
    ensures Compare(a, a) == 0
  {
  }

  /** Every key is in `rows`. */
  predicate Sortable(order: seq<string>, rows: map<string, Rec>) {
    forall i :: 0 <= i < |order| ==> order[i] in rows
  }

  /** Every earlier record compares at most equal to every later one. */
  ghost predicate SortedBy(order: seq<string>, rows: map<string, Rec>)
    requires Sortable(order, rows)
  {
    forall i, j :: 0 <= i < j < |order| ==> Compare(rows[order[i]], rows[order[j]]) <= 0
  }

  /** The keys of `order` whose records sort as `c`, in their order: one class of equal elements. */
  function ClassOf(order: seq<string>, rows: map<string, Rec>, c: (nat, nat)): seq<string>
    requires Sortable(order, rows)
  {
    if order == [] then []
    else
      var n := |order| - 1;
      ClassOf(order[..n], rows, c) + (if SortKey(rows[order[n]]) == c then [order[n]] else [])
  }

  lemma {:induction false} ClassOfConcat(a: seq<string>, b: seq<string>, rows: map<string, Rec>, c: (nat, nat))
    requires Sortable(a, rows) && Sortable(b, rows)
    ensures Sortable(a + b, rows)
    ensures ClassOf(a + b, rows, c) == ClassOf(a, rows, c) + ClassOf(b, rows, c)
  {
    if b != [] {
      var n := |b| - 1;
      ClassOfConcat(a, b[..n], rows, c);
      assert (a + b)[..|a + b| - 1] == a + b[..n];
      assert (a + b)[|a + b| - 1] == b[n];
      var last := if SortKey(rows[b[n]]) == c then [b[n]] else [];
      calc {
        ClassOf(a + b, rows, c);
        ClassOf(a + b[..n], rows, c) + last;
        ClassOf(a, rows, c) + ClassOf(b[..n], rows, c) + last;
        ClassOf(a, rows, c) + (ClassOf(b[..n], rows, c) + last);
        ClassOf(a, rows, c) + ClassOf(b, rows, c);
      }
    } else {
      assert a + b == a;
    }
  }

  lemma {:induction false} ClassOfNone(a: seq<string>, rows: map<string, Rec>, c: (nat, nat))
    requires Sortable(a, rows)
    requires forall i :: 0 <= i < |a| ==> SortKey(rows[a[i]]) != c
    ensures ClassOf(a, rows, c) == []
  {
    if a != [] {
      ClassOfNone(a[..|a| - 1], rows, c);
    }
  }

  /** The class of a prefix is a prefix of the class. */
  lemma ClassOfPrefix(s: seq<string>, rows: map<string, Rec>, c: (nat, nat), n: nat)
    requires Sortable(s, rows) && n <= |s|
    ensures Sortable(s[..n], rows)
    ensures ClassOf(s[..n], rows, c) <= ClassOf(s, rows, c)
  {
    assert s == s[..n] + s[n..];
    ClassOfConcat(s[..n], s[n..], rows, c);
  }

  /** Longer prefixes have longer (or equal) classes. */
  lemma ClassOfPrefixGrows(s: seq<string>, rows: map<string, Rec>, c: (nat, nat), a: nat, b: nat)
    requires Sortable(s, rows) && a <= b <= |s|
    ensures Sortable(s[..a], rows) && Sortable(s[..b], rows)
    ensures |ClassOf(s[..a], rows, c)| <= |ClassOf(s[..b], rows, c)|
  {
    assert s[..b][..a] == s[..a];
    ClassOfPrefix(s[..b], rows, c, a);
  }

  /** Key `s[i]` is the element of its class that follows those of `s[..i]`. */
  lemma ClassPos(s: seq<string>, rows: map<string, Rec>, i: nat)
    requires Sortable(s, rows) && i < |s|
    ensures Sortable(s[..i], rows) && Sortable(s[..i + 1], rows)
    ensures ClassOf(s[..i + 1], rows, SortKey(rows[s[i]])) == ClassOf(s[..i], rows, SortKey(rows[s[i]])) + [s[i]]
    ensures |ClassOf(s[..i], rows, SortKey(rows[s[i]]))| < |ClassOf(s, rows, SortKey(rows[s[i]]))|
    ensures ClassOf(s, rows, SortKey(rows[s[i]]))[|ClassOf(s[..i], rows, SortKey(rows[s[i]]))|] == s[i]
  {
    var c := SortKey(rows[s[i]]);
    assert s[..i + 1][..i] == s[..i];
    ClassOfPrefix(s, rows, c, i + 1);
  }

  /** Where element `p` of a class sits in `s`: at an index whose prefix holds the `p` before it. */
  lemma {:induction false} ClassIndex(s: seq<string>, rows: map<string, Rec>, c: (nat, nat), p: nat) returns (a: nat)
    requires Sortable(s, rows) && p < |ClassOf(s, rows, c)|
    ensures a < |s| && s[a] == ClassOf(s, rows, c)[p]
    ensures Sortable(s[..a], rows) && |ClassOf(s[..a], rows, c)| == p
  {
    var n := |s| - 1;
    if p < |ClassOf(s[..n], rows, c)| {
      a := ClassIndex(s[..n], rows, c, p);
      assert s[..n][..a] == s[..a];
    } else {
      a := n;
    }
  }

  /**
   * Stability, pair by pair: when every class of `t` equals that class of `s`, two keys of `t`
   * whose records tie come in `t` in the order they had in `s`.
   */
  lemma TiesKeepOrder(s: seq<string>, t: seq<string>, rows: map<string, Rec>, i: nat, j: nat) returns (a: nat, b: nat)
    requires Sortable(s, rows) && Sortable(t, rows)
    requires forall c :: ClassOf(t, rows, c) == ClassOf(s, rows, c)
    requires i < j < |t| && SortKey(rows[t[i]]) == SortKey(rows[t[j]])
    ensures a < b < |s| && s[a] == t[i] && s[b] == t[j]
  {
    var c := SortKey(rows[t[i]]);
    ClassPos(t, rows, i);
    ClassPos(t, rows, j);
    ClassOfPrefixGrows(t, rows, c, i + 1, j);
    var p, q := |ClassOf(t[..i], rows, c)|, |ClassOf(t[..j], rows, c)|;
    assert ClassOf(t, rows, c) == ClassOf(s, rows, c);
    a := ClassIndex(s, rows, c, p);
    b := ClassIndex(s, rows, c, q);
    if b <= a {
      ClassOfPrefixGrows(s, rows, c, b, a);
      assert false;
    }
  }

  /** The slot where insertion puts `x`: after every record that compares at most equal to it. */
  ghost predicate IsSlot(s: seq<string>, j: nat, x: string, rows: map<string, Rec>)
    requires Sortable(s, rows) && x in rows
  {
    && j <= |s|
    && (forall m :: 0 <= m < j ==> Compare(rows[s[m]], rows[x]) <= 0)
    && (forall m :: j <= m < |s| ==> Compare(rows[s[m]], rows[x]) > 0)
  }

  /**
   * One insertion step keeps the keys sorted: `x` follows everything at most equal to it and
   * precedes everything greater.
   */
  lemma InsertSorted(s: seq<string>, j: nat, x: string, rows: map<string, Rec>)
    requires Sortable(s, rows) && SortedBy(s, rows)
    requires x in rows && IsSlot(s, j, x, rows)
    ensures Sortable(s[..j] + [x] + s[j..], rows)
    ensures SortedBy(s[..j] + [x] + s[j..], rows)
  {
    var s' := s[..j] + [x] + s[j..];
    assert forall m :: 0 <= m < j ==> s'[m] == s[m];
    assert forall m :: j < m < |s'| ==> s'[m] == s[m - 1];
    forall a, b | 0 <= a < b < |s'|
      ensures Compare(rows[s'[a]], rows[s'[b]]) <= 0
    {
      if b < j {
        assert s'[a] == s[a] && s'[b] == s[b];
      } else if a > j {
        assert s'[a] == s[a - 1] && s'[b] == s[b - 1];
      } else if b == j {
        assert s'[a] == s[a] && s'[b] == x;
      } else if a == j {
        assert s'[a] == x && s'[b] == s[b - 1];
        CompareIsTotalPreorder(rows[s[b - 1]], rows[x], rows[x]);
      } else {
        assert s'[a] == s[a] && s'[b] == s[b - 1];
        CompareIsTotalPreorder(rows[s[b - 1]], rows[x], rows[x]);
        CompareIsTotalPreorder(rows[s[a]], rows[x], rows[s[b - 1]]);
      }
    }
  }

  /** One insertion step puts `x` at the end of its class and leaves every other class alone. */
  lemma InsertClasses(s: seq<string>, j: nat, x: string, rows: map<string, Rec>, c: (nat, nat))
    requires Sortable(s, rows) && x in rows && IsSlot(s, j, x, rows)
    ensures Sortable(s[..j] + [x] + s[j..], rows)
    ensures ClassOf(s[..j] + [x] + s[j..], rows, c) == ClassOf(s, rows, c) + ClassOf([x], rows, c)
  {
    var pre, post := s[..j], s[j..];
    assert s == pre + post;
    assert ClassOf(pre + [x] + post, rows, c) == ClassOf(pre, rows, c) + ClassOf([x], rows, c) + ClassOf(post, rows, c) by {
      ClassOfConcat(pre, [x], rows, c);
      ClassOfConcat(pre + [x], post, rows, c);
    }
    assert ClassOf(s, rows, c) == ClassOf(pre, rows, c) + ClassOf(post, rows, c) by {
      ClassOfConcat(pre, post, rows, c);
    }
    if c == SortKey(rows[x]) {
      assert ClassOf(post, rows, c) == [] by {
        forall i | 0 <= i < |post|
          ensures SortKey(rows[post[i]]) != c
        {
          assert post[i] == s[j + i];
          assert Compare(rows[s[j + i]], rows[x]) > 0;
        }
        ClassOfNone(post, rows, c);
      }
    } else {
      assert ClassOf([x], rows, c) == [] by {
        ClassOfNone([x], rows, c);
      }
    }
  }

  /** The inner loop of insertion: scan past the records that compare at most equal to `x`. */
  method FindSlot(s: seq<string>, x: string, rows: map<string, Rec>) returns (j: nat)
    requires Sortable(s, rows) && SortedBy(s, rows)
    requires x in rows
    ensures IsSlot(s, j, x, rows)
  {
    j := 0;
    while j < |s| && Compare(rows[s[j]], rows[x]) <= 0
      invariant 0 <= j <= |s|
      invariant forall m :: 0 <= m < j ==> Compare(rows[s[m]], rows[x]) <= 0
    {
      j := j + 1;
    }
    forall m | j < m < |s|
      ensures Compare(rows[s[m]], rows[x]) > 0
    {
      assert Compare(rows[s[j]], rows[s[m]]) <= 0;
    }
  }

  /** Inserting a key that is not yet present keeps the keys distinct. */
  lemma InsertDistinct(s: seq<string>, j: nat, x: string)
    requires Distinct(s) && x !in s && j <= |s|
    ensures Distinct(s[..j] + [x] + s[j..])
  {
    var s' := s[..j] + [x] + s[j..];
    assert forall m :: 0 <= m < j ==> s'[m] == s[m];
    assert forall m :: j < m < |s'| ==> s'[m] == s[m - 1];
  }

  /** Inserting the next key keeps the sorted keys a permutation of the keys read so far. */
  lemma InsertPermutes(s: seq<string>, j: nat, x: string, done: seq<string>)
    requires multiset(s) == multiset(done) && j <= |s|
    ensures multiset(s[..j] + [x] + s[j..]) == multiset(done + [x])
  {
    assert s == s[..j] + s[j..];
  }

  /** Inserting the next key keeps every class of the sorted keys equal to that class of the keys read so far. */
  lemma InsertKeepsClasses(s: seq<string>, j: nat, x: string, done: seq<string>, rows: map<string, Rec>)
    requires Sortable(s, rows) && Sortable(done, rows) && x in rows && IsSlot(s, j, x, rows)
    requires forall c :: ClassOf(s, rows, c) == ClassOf(done, rows, c)
    ensures Sortable(s[..j] + [x] + s[j..], rows) && Sortable(done + [x], rows)
    ensures forall c :: ClassOf(s[..j] + [x] + s[j..], rows, c) == ClassOf(done + [x], rows, c)
  {
    forall c
      ensures ClassOf(s[..j] + [x] + s[j..], rows, c) == ClassOf(done + [x], rows, c)
    {
      InsertClasses(s, j, x, rows, c);
      ClassOfConcat(done, [x], rows, c);
    }
  }

  /** The keys read after one more pass are those read before plus the next one. */
  lemma PrefixSnoc(q: seq<string>, i: nat)
    requires i < |q|
    ensures q[..i + 1] == q[..i] + [q[i]]
  {
  }

  /**
   * `uasort($myth_channels, comparator)`: a stable insertion sort of the keys by their records.
   * Every key keeps its record; the new order is a permutation of the old one, sorted by the
   * comparator, and records that compare equal keep their relative order.
   */
  method SortTable(t: Table) returns (u: Table)
    requires Valid(t)
    ensures u.rows == t.rows
    ensures Valid(u)
    ensures multiset(u.order) == multiset(t.order)
    ensures Sortable(u.order, u.rows) && SortedBy(u.order, u.rows)
    ensures Sortable(t.order, t.rows)
    ensures forall c :: ClassOf(u.order, u.rows, c) == ClassOf(t.order, t.rows, c)
  {
    var s := SortKeys(t.order, t.rows);
    u := Table(s, t.rows);
    forall k ensures k in u.rows <==> k in u.order {
      assert k in u.order <==> k in multiset(t.order);
    }
  }

  /** The insertion sort behind `SortTable`, on the keys in `order` and their records in `rows`. */
  method SortKeys(order: seq<string>, rows: map<string, Rec>) returns (s: seq<string>)
    requires Sortable(order, rows) && Distinct(order)
    ensures Sortable(s, rows) && SortedBy(s, rows) && Distinct(s)
    ensures multiset(s) == multiset(order)
    ensures forall c :: ClassOf(s, rows, c) == ClassOf(order, rows, c)
  {
    s := [];
    var i := 0;
    while i < |order|
      invariant 0 <= i <= |order|
      invariant Sortable(s, rows) && SortedBy(s, rows) && Distinct(s)
      invariant multiset(s) == multiset(order[..i])
      invariant forall c :: ClassOf(s, rows, c) == ClassOf(order[..i], rows, c)
    {
      var x := order[i];
      assert x !in s by {
        assert x !in order[..i];
        assert x !in multiset(order[..i]);
      }
      var j := FindSlot(s, x, rows);
      PrefixSnoc(order, i);
      InsertSorted(s, j, x, rows);
      InsertDistinct(s, j, x);
      InsertPermutes(s, j, x, order[..i]);
      InsertKeepsClasses(s, j, x, order[..i], rows);
      s := s[..j] + [x] + s[j..];
      i := i + 1;
    }
    assert order[..i] == order;
  }
}
