/** The persistence store (class DBManager): the SQLite table `presences`,
    unique on (prenom, nom, date), seen as a finite map from that key to the
    stored (etat, tempRetard) pair. The table also remembers the order in
    which keys were first inserted, which plays the part of SQLite's rowid.
 */
module DBManager {
  import opened Wrappers
  import opened Builtins

  /** The UNIQUE(prenom, nom, date) key of a row. */
  datatype Key = Key(prenom: string, nom: string, date: string)

  /** The columns an upsert writes. */
  datatype Entry = Entry(etat: Option<string>, tempRetard: int)

  datatype Table = Table(rows: map<Key, Entry>, order: seq<Key>)

  /** One list `[prenom, nom, date, etat, temp_retard]` handed to `save_all`. */
  datatype Row = Row(prenom: string, nom: string, date: string, etat: Option<string>, tempRetard: Option<int>) {

    function Id(): Key {
      Key(prenom, nom, date)
    }

    /** `temp_retard or 0`: a missing lateness is stored as 0. */
    function Values(): Entry {
      Entry(etat, tempRetard.GetOr(0))
    }
  }

  /** One row as the read queries return it. */
  datatype Record = Record(prenom: string, nom: string, date: string, etat: Option<string>, tempRetard: int) {

    function Id(): Key {
      Key(prenom, nom, date)
    }

    function Values(): Entry {
      Entry(etat, tempRetard)
    }
  }

  /** The insertion order lists every stored key exactly once. */
  predicate Valid(t: Table)
  {
    && Distinct(t.order)
    && (forall k :: k in t.order ==> k in t.rows)
    && (forall k :: k in t.rows ==> k in t.order)
  }

  /** A freshly created table holds no rows. */
  function Empty(): (t: Table)
    ensures Valid(t) && |t.rows| == 0
  {
    Table(map[], [])
  }

  // ---------------------------------------------------------------------------
  // Writing
  // ---------------------------------------------------------------------------

  /** `upsert`: INSERT ... ON CONFLICT(prenom, nom, date) DO UPDATE. The key
      afterwards holds exactly the new values, no other key changes, and a row
      is added exactly when the key was not stored yet. */
  function Upsert(t: Table, prenom: string, nom: string, date: string, etat: Option<string>, tempRetard: int): (t': Table)
    requires Valid(t)
    ensures Valid(t')
    ensures var k := Key(prenom, nom, date);
      k in t'.rows && t'.rows[k] == Entry(etat, tempRetard)
    ensures forall k :: k != Key(prenom, nom, date) ==>
      (k in t'.rows <==> k in t.rows) && (k in t.rows ==> t'.rows[k] == t.rows[k])
    ensures Key(prenom, nom, date) in t.rows ==> |t'.rows| == |t.rows| && t'.order == t.order
    ensures Key(prenom, nom, date) !in t.rows ==> |t'.rows| == |t.rows| + 1 && t'.order == t.order + [Key(prenom, nom, date)]
  {
    var k := Key(prenom, nom, date);
    var rows := t.rows[k := Entry(etat, tempRetard)];
    if k in t.rows then Table(rows, t.order) else Table(rows, t.order + [k])
  }

  /** Upserting the same values twice is the same as upserting them once. */
  lemma UpsertIdempotent(t: Table, prenom: string, nom: string, date: string, etat: Option<string>, tempRetard: int)
    requires Valid(t)
    ensures var t1 := Upsert(t, prenom, nom, date, etat, tempRetard);
      Upsert(t1, prenom, nom, date, etat, tempRetard) == t1
  {
    var t1 := Upsert(t, prenom, nom, date, etat, tempRetard);
    assert t1.rows[Key(prenom, nom, date) := Entry(etat, tempRetard)] == t1.rows;
  }

  /** `save_all`: one upsert per row, in list order. */
  function SaveAll(t: Table, rows: seq<Row>): (t': Table)
    requires Valid(t)
    ensures Valid(t')
    decreases |rows|
  {
    if |rows| == 0 then t
    else
      var r := rows[0];
      SaveAll(Upsert(t, r.prenom, r.nom, r.date, r.etat, r.tempRetard.GetOr(0)), rows[1..])
  }

  /** What a list of rows says about each key, later rows overriding
      earlier ones. */
  function LastWins(rows: seq<Row>): map<Key, Entry>
  {
    if |rows| == 0 then map[]
    else map[rows[0].Id() := rows[0].Values()] + LastWins(rows[1..])
  }

  /** A key is mentioned by the list exactly when some row carries it, and
      it then holds the values of the last row carrying it. */
  lemma LastWinsSpec(rows: seq<Row>)
    ensures forall k :: k in LastWins(rows) <==> exists i :: 0 <= i < |rows| && rows[i].Id() == k
    ensures forall i :: 0 <= i < |rows| && (forall j :: i < j < |rows| ==> rows[j].Id() != rows[i].Id()) ==>
      rows[i].Id() in LastWins(rows) && LastWins(rows)[rows[i].Id()] == rows[i].Values()
  {
    LastWinsKeys(rows);
    LastWinsValues(rows);
  }

  lemma {:induction false} LastWinsKeys(rows: seq<Row>)
    ensures forall k :: k in LastWins(rows) <==> exists i :: 0 <= i < |rows| && rows[i].Id() == k
  {
    if |rows| > 0 {
      var rest := rows[1..];
      LastWinsKeys(rest);
      assert LastWins(rows) == map[rows[0].Id() := rows[0].Values()] + LastWins(rest);
      forall k
        ensures k in LastWins(rows) <==> exists i :: 0 <= i < |rows| && rows[i].Id() == k
      {
        if k in LastWins(rows) && k != rows[0].Id() {
          var i :| 0 <= i < |rest| && rest[i].Id() == k;
          assert rows[i + 1].Id() == k;
        }
        if exists i :: 0 <= i < |rows| && rows[i].Id() == k {
          var i :| 0 <= i < |rows| && rows[i].Id() == k;
          if i > 0 {
            assert rest[i - 1].Id() == k;
          }
        }
      }
    }
  }

  lemma {:induction false} LastWinsValues(rows: seq<Row>)
    ensures forall i :: 0 <= i < |rows| && (forall j :: i < j < |rows| ==> rows[j].Id() != rows[i].Id()) ==>
      rows[i].Id() in LastWins(rows) && LastWins(rows)[rows[i].Id()] == rows[i].Values()
  {
    if |rows| > 0 {
      var rest := rows[1..];
      LastWinsValues(rest);
      LastWinsKeys(rest);
      var lw := LastWins(rows);
      assert lw == map[rows[0].Id() := rows[0].Values()] + LastWins(rest);
      forall i | 0 <= i < |rows| && (forall j :: i < j < |rows| ==> rows[j].Id() != rows[i].Id())
        ensures rows[i].Id() in lw && lw[rows[i].Id()] == rows[i].Values()
      {
        if i == 0 {
          assert forall j :: 0 <= j < |rest| ==> rest[j].Id() != rows[0].Id() by {
            assert forall j :: 0 <= j < |rest| ==> rest[j] == rows[j + 1];
          }
        } else {
          assert rest[i - 1] == rows[i];
          assert forall j :: i - 1 < j < |rest| ==> rest[j] == rows[j + 1];
        }
      }
    }
  }

  /** Saving a list overwrites exactly the keys it mentions, each with the
      values of its last row, and keeps every other row. */
  lemma {:induction false} SaveAllAsMap(t: Table, rows: seq<Row>)
    requires Valid(t)
    ensures SaveAll(t, rows).rows == t.rows + LastWins(rows)
    decreases |rows|
  {
    if |rows| > 0 {
      var r := rows[0];
      var t1 := Upsert(t, r.prenom, r.nom, r.date, r.etat, r.tempRetard.GetOr(0));
      var single := map[r.Id() := r.Values()];
      var rest := LastWins(rows[1..]);
      assert SaveAll(t, rows) == SaveAll(t1, rows[1..]);
      assert SaveAll(t1, rows[1..]).rows == t1.rows + rest by {
        SaveAllAsMap(t1, rows[1..]);
      }
      assert t1.rows == t.rows + single by {
        UpsertAsUnion(t, r);
      }
      assert LastWins(rows) == single + rest;
      assert t.rows + single + rest == t.rows + (single + rest) by {
        UnionAssociative(t.rows, single, rest);
      }
    } else {
      assert t.rows + map[] == t.rows;
    }
  }

  lemma UpsertAsUnion(t: Table, r: Row)
    requires Valid(t)
    ensures Upsert(t, r.prenom, r.nom, r.date, r.etat, r.tempRetard.GetOr(0)).rows
         == t.rows + map[r.Id() := r.Values()]
  {
    UpdateAsUnion(t.rows, r.Id(), r.Values());
  }

  lemma UpdateAsUnion<K, V>(m: map<K, V>, k: K, v: V)
    ensures m[k := v] == m + map[k := v]
  {
    var l, u := m[k := v], m + map[k := v];
    assert l.Keys == u.Keys;
    forall j | j in l
      ensures l[j] == u[j]
    {
      if j != k {
        assert l[j] == m[j] && u[j] == m[j];
      }
    }
  }

  lemma UnionAssociative<K, V>(a: map<K, V>, b: map<K, V>, c: map<K, V>)
    ensures a + b + c == a + (b + c)
  {
    var l, r := a + b + c, a + (b + c);
    assert l.Keys == r.Keys;
    forall k | k in l
      ensures l[k] == r[k]
    {
    }
  }

  /** Saving rows whose keys are all stored already adds no row and keeps the
      insertion order. */
  lemma {:induction false} SaveAllKnownKeys(t: Table, rows: seq<Row>)
    requires Valid(t)
    requires forall i :: 0 <= i < |rows| ==> rows[i].Id() in t.rows
    ensures SaveAll(t, rows).order == t.order
    ensures SaveAll(t, rows).rows.Keys == t.rows.Keys
    decreases |rows|
  {
    if |rows| > 0 {
      var r := rows[0];
      var t1 := Upsert(t, r.prenom, r.nom, r.date, r.etat, r.tempRetard.GetOr(0));
      assert t1.rows.Keys == t.rows.Keys;
      SaveAllKnownKeys(t1, rows[1..]);
    }
  }

  /** Saving the same list twice leaves the table as saving it once. */
  lemma SaveAllIdempotent(t: Table, rows: seq<Row>)
    requires Valid(t)
    ensures SaveAll(SaveAll(t, rows), rows) == SaveAll(t, rows)
  {
    var t1 := SaveAll(t, rows);
    SaveAllAsMap(t, rows);
    SaveAllAsMap(t1, rows);
    SaveAllStoresEveryKey(t, rows);
    SaveAllKnownKeys(t1, rows);
    UnionAbsorbs(t.rows, LastWins(rows));
  }

  /** After saving a list, every key it mentions is stored. */
  lemma SaveAllStoresEveryKey(t: Table, rows: seq<Row>)
    requires Valid(t)
    ensures forall i :: 0 <= i < |rows| ==> rows[i].Id() in SaveAll(t, rows).rows
  {
    SaveAllAsMap(t, rows);
    LastWinsSpec(rows);
  }

  lemma UnionAbsorbs<K, V>(a: map<K, V>, b: map<K, V>)
    ensures a + b + b == a + b
  {
    var l, r := a + b + b, a + b;
    assert l.Keys == r.Keys;
    forall k | k in l
      ensures l[k] == r[k]
    {
    }
  }

  // ---------------------------------------------------------------------------
  // Reading
  // ---------------------------------------------------------------------------

  function RecordOf(t: Table, k: Key): (r: Record)
    requires k in t.rows
    ensures r.Id() == k && r.Values() == t.rows[k]
  {
    Record(k.prenom, k.nom, k.date, t.rows[k].etat, t.rows[k].tempRetard)
  }

  /** A record belongs to the table when its key is stored with its values. */
  predicate Stored(t: Table, x: Record)
  {
    x.Id() in t.rows && t.rows[x.Id()] == x.Values()
  }

  /** Every stored row once, in insertion order. */
  function Records(t: Table): (rs: seq<Record>)
    requires Valid(t)
    ensures |rs| == |t.order|
    ensures Distinct(rs)
    ensures forall x :: x in rs <==> Stored(t, x)
  {
    var rs := seq(|t.order|, i requires 0 <= i < |t.order| => RecordOf(t, t.order[i]));
    assert forall x :: Stored(t, x) ==> rs[IndexOf(t.order, x.Id())] == x;
    rs
  }

  /** The two orders the read queries ask for. */
  datatype SortOrder = DateDescNomAsc | NomAsc

  /** `a` may come before `b` in the requested order (ties allowed). */
  predicate Before(o: SortOrder, a: Record, b: Record)
  {
    match o
    case NomAsc => LessEq(a.nom, b.nom)
    case DateDescNomAsc => Less(b.date, a.date) || (a.date == b.date && LessEq(a.nom, b.nom))
  }

  lemma BeforeTotal(o: SortOrder, a: Record, b: Record)
    ensures Before(o, a, b) || Before(o, b, a)
  {
    LessTotal(a.nom, b.nom);
    LessTotal(a.date, b.date);
  }

  lemma BeforeTransitive(o: SortOrder, a: Record, b: Record, c: Record)
    requires Before(o, a, b) && Before(o, b, c)
    ensures Before(o, a, c)
  {
    if Less(a.nom, b.nom) && Less(b.nom, c.nom) {
      LessTransitive(a.nom, b.nom, c.nom);
    }
    if Less(c.date, b.date) && Less(b.date, a.date) {
      LessTransitive(c.date, b.date, a.date);
    }
  }

  predicate Sorted(o: SortOrder, s: seq<Record>)
  {
    forall i, j :: 0 <= i < j < |s| ==> Before(o, s[i], s[j])
  }

  /** Places `x` before the first element it may precede; equal elements
      therefore keep their relative order. */
  function Insert(o: SortOrder, x: Record, s: seq<Record>): (r: seq<Record>)
    requires Sorted(o, s)
    ensures Sorted(o, r)
    ensures multiset(r) == multiset(s) + multiset{x}
    ensures forall y :: y in r <==> y == x || y in s
  {
    if |s| == 0 then [x]
    else if Before(o, x, s[0]) then
      forall j | 0 <= j < |s|
        ensures Before(o, x, s[j])
      {
        if j > 0 {
          BeforeTransitive(o, x, s[0], s[j]);
        }
      }
      assert s == [s[0]] + s[1..];
      [x] + s
    else
      BeforeTotal(o, x, s[0]);
      var tail := Insert(o, x, s[1..]);
      assert forall y :: y in tail ==> Before(o, s[0], y);
      assert s == [s[0]] + s[1..];
      [s[0]] + tail
  }

  /** Insertion sort: the same records, in the requested order. */
  function Sort(o: SortOrder, s: seq<Record>): (r: seq<Record>)
    ensures Sorted(o, r)
    ensures multiset(r) == multiset(s)
  {
    if |s| == 0 then []
    else
      assert s == [s[0]] + s[1..];
      Insert(o, s[0], Sort(o, s[1..]))
  }

  /** `get_all`: every stored row exactly once, latest date first and, within
      a date, by last name. SQLite leaves the order of rows equal on both
      columns open; the model returns them in insertion order. */
  function GetAll(t: Table): (r: seq<Record>)
    requires Valid(t)
    ensures Sorted(DateDescNomAsc, r)
    ensures Distinct(r) && |r| == |t.order|
    ensures forall x :: x in r <==> Stored(t, x)
  {
    var rs := Records(t);
    var sorted := Sort(DateDescNomAsc, rs);
    DistinctPermutation(rs, sorted);
    assert forall x :: x in sorted <==> x in multiset(sorted);
    assert |sorted| == |multiset(sorted)| == |multiset(rs)| == |rs|;
    sorted
  }

  function OnDate(rs: seq<Record>, date: string): (r: seq<Record>)
    ensures forall x :: x in r <==> x in rs && x.date == date
    ensures Distinct(rs) ==> Distinct(r)
  {
    if |rs| == 0 then []
    else
      var rest := OnDate(rs[1..], date);
      assert rs == [rs[0]] + rs[1..];
      if rs[0].date == date then [rs[0]] + rest else rest
  }

  /** `get_by_date(date)`: exactly the stored rows of that date, each once,
      by last name. */
  function GetByDate(t: Table, date: string): (r: seq<Record>)
    requires Valid(t)
    ensures Sorted(NomAsc, r)
    ensures Distinct(r)
    ensures forall x :: x in r <==> Stored(t, x) && x.date == date
  {
    var rs := OnDate(Records(t), date);
    var sorted := Sort(NomAsc, rs);
    DistinctPermutation(rs, sorted);
    assert forall x :: x in sorted <==> x in multiset(sorted);
    sorted
  }

  /** The dates present in the table. */
  function Dates(t: Table): set<string>
  {
    set k | k in t.rows :: k.date
  }

  predicate StrictlyDescending(s: seq<string>)
  {
    forall i, j :: 0 <= i < j < |s| ==> Less(s[j], s[i])
  }

  /** Adds `d` to a strictly descending list unless it is already there. */
  function InsertDate(d: string, s: seq<string>): (r: seq<string>)
    requires StrictlyDescending(s)
    ensures StrictlyDescending(r)
    ensures forall x :: x in r <==> x == d || x in s
  {
    if |s| == 0 then [d]
    else if s[0] == d then s
    else if Less(s[0], d) then
      forall j | 0 <= j < |s|
        ensures Less(s[j], d)
      {
        if j > 0 {
          LessTransitive(s[j], s[0], d);
        }
      }
      [d] + s
    else
      LessTotal(s[0], d);
      var tail := InsertDate(d, s[1..]);
      assert forall x :: x in tail ==> Less(x, s[0]);
      assert s == [s[0]] + s[1..];
      [s[0]] + tail
  }

  function CollectDates(keys: seq<Key>): (r: seq<string>)
    ensures StrictlyDescending(r)
    ensures forall d :: d in r <==> exists i :: 0 <= i < |keys| && keys[i].date == d
  {
    if |keys| == 0 then []
    else
      var rest := CollectDates(keys[..|keys| - 1]);
      assert forall i :: 0 <= i < |keys| - 1 ==> keys[i] == keys[..|keys| - 1][i];
      InsertDate(keys[|keys| - 1].date, rest)
  }

  /** `get_dates`: each stored date once, latest first. */
  function GetDates(t: Table): (r: seq<string>)
    requires Valid(t)
    ensures StrictlyDescending(r)
    ensures Distinct(r)
    ensures forall d :: d in r <==> d in Dates(t)
  {
    var r := CollectDates(t.order);
    forall i, j | 0 <= i < j < |r|
      ensures r[i] != r[j]
    {
      LessIrreflexive(r[i]);
    }
    assert forall d :: d in Dates(t) ==> exists k :: k in t.rows && k.date == d;
    assert forall d :: d in Dates(t) ==> exists i :: 0 <= i < |t.order| && t.order[i].date == d by {
      forall d | d in Dates(t)
        ensures exists i :: 0 <= i < |t.order| && t.order[i].date == d
      {
        var k :| k in t.rows && k.date == d;
        var i := IndexOf(t.order, k);
      }
    }
    r
  }

  // ---------------------------------------------------------------------------
  // Statistics
  // ---------------------------------------------------------------------------

  datatype Stats = Stats(totalEtudiants: nat, presents: nat, absents: nat, retards: nat)

  /** Keys of the rows whose `etat` is exactly the given text. */
  function WithEtat(t: Table, etat: string): set<Key>
  {
    set k | k in t.rows && t.rows[k].etat == Some(etat)
  }

  /** `prenom || nom` for every row. */
  function NameTexts(keys: set<Key>): set<string>
  {
    set k | k in keys :: k.prenom + k.nom
  }

  lemma {:induction false} NameTextsBound(keys: set<Key>)
    ensures |NameTexts(keys)| <= |keys|
    decreases |keys|
  {
    if keys != {} {
      var k :| k in keys;
      NameTextsBound(keys - {k});
      assert NameTexts(keys) == NameTexts(keys - {k}) + {k.prenom + k.nom};
    }
  }

  lemma NameTextsNonEmpty(keys: set<Key>)
    ensures |keys| > 0 ==> |NameTexts(keys)| > 0
  {
    if |keys| > 0 {
      var k :| k in keys;
      assert k.prenom + k.nom in NameTexts(keys);
    }
  }

  lemma SubsetCard<T>(a: set<T>, b: set<T>)
    requires a <= b
    ensures |a| <= |b|
  {
    assert b == a + (b - a);
  }

  /** `get_stats`: the number of distinct `prenom || nom` texts and the number
      of rows whose `etat` is "present", "absent" or "retard". The three
      status counts never exceed the row count together, and neither does the
      number of students. */
  function GetStats(t: Table): (s: Stats)
    ensures s.presents + s.absents + s.retards <= |t.rows|
    ensures s.totalEtudiants <= |t.rows|
    ensures |t.rows| > 0 ==> s.totalEtudiants > 0
  {
    var p, a, r := WithEtat(t, "present"), WithEtat(t, "absent"), WithEtat(t, "retard");
    NameTextsBound(t.rows.Keys);
    SubsetCard(p + a + r, t.rows.Keys);
    NameTextsNonEmpty(t.rows.Keys);
    Stats(|NameTexts(t.rows.Keys)|, |p|, |a|, |r|)
  }

  /** `COUNT(*) ... WHERE etat = e`, counted row by row in insertion order. */
  function CountEtat(order: seq<Key>, rows: map<Key, Entry>, e: string): nat
  {
    if |order| == 0 then 0
    else
      var k := order[|order| - 1];
      CountEtat(order[..|order| - 1], rows, e) + (if k in rows && rows[k].etat == Some(e) then 1 else 0)
  }

  /** On a list without repeats, counting row by row agrees with the size of
      the set of matching keys. */
  lemma {:induction false} CountEtatMatches(order: seq<Key>, rows: map<Key, Entry>, e: string)
    requires Distinct(order)
    ensures CountEtat(order, rows, e) == |Matching(order, rows, e)|
  {
    if |order| > 0 {
      var init, k := order[..|order| - 1], order[|order| - 1];
      assert Distinct(init);
      CountEtatMatches(init, rows, e);
      MatchingSnoc(init, k, rows, e);
      assert order == init + [k];
    }
  }

  /** The keys of `order` whose row has `etat` exactly `e`. */
  function Matching(order: seq<Key>, rows: map<Key, Entry>, e: string): set<Key>
  {
    set k | k in order && k in rows && rows[k].etat == Some(e)
  }

  lemma MatchingSnoc(init: seq<Key>, k: Key, rows: map<Key, Entry>, e: string)
    requires Distinct(init + [k])
    ensures |Matching(init + [k], rows, e)| ==
      |Matching(init, rows, e)| + (if k in rows && rows[k].etat == Some(e) then 1 else 0)
  {
    assert k !in init by {
      var order := init + [k];
      assert forall i :: 0 <= i < |init| ==> order[i] == init[i] && order[i] != order[|init|];
    }
    if k in rows && rows[k].etat == Some(e) {
      assert Matching(init + [k], rows, e) == Matching(init, rows, e) + {k};
    } else {
      assert Matching(init + [k], rows, e) == Matching(init, rows, e);
    }
  }

  /** The three status counts of a valid table are the row-by-row counts of
      the rows whose `etat` is exactly "present", "absent" and "retard". */
  lemma GetStatsCounts(t: Table)
    requires Valid(t)
    ensures GetStats(t).presents == CountEtat(t.order, t.rows, "present")
    ensures GetStats(t).absents == CountEtat(t.order, t.rows, "absent")
    ensures GetStats(t).retards == CountEtat(t.order, t.rows, "retard")
  {
    WithEtatInOrder(t, "present");
    WithEtatInOrder(t, "absent");
    WithEtatInOrder(t, "retard");
  }

  lemma WithEtatInOrder(t: Table, e: string)
    requires Valid(t)
    ensures |WithEtat(t, e)| == CountEtat(t.order, t.rows, e)
  {
    CountEtatMatches(t.order, t.rows, e);
    assert WithEtat(t, e) == Matching(t.order, t.rows, e);
  }

  /** Inserting a new key adds one to the count of its status and leaves the
      other counts alone; the student count grows exactly when no stored row
      has the same `prenom || nom`. */
  lemma UpsertNewKeyStats(t: Table, prenom: string, nom: string, date: string, etat: Option<string>, tempRetard: int)
    requires Valid(t) && Key(prenom, nom, date) !in t.rows
    ensures var (s, s') := (GetStats(t), GetStats(Upsert(t, prenom, nom, date, etat, tempRetard)));
      && s'.presents == s.presents + (if etat == Some("present") then 1 else 0)
      && s'.absents == s.absents + (if etat == Some("absent") then 1 else 0)
      && s'.retards == s.retards + (if etat == Some("retard") then 1 else 0)
      && s'.totalEtudiants == s.totalEtudiants + (if prenom + nom in NameTexts(t.rows.Keys) then 0 else 1)
  {
    var k := Key(prenom, nom, date);
    WithEtatNewKey(t, k, etat, tempRetard, "present");
    WithEtatNewKey(t, k, etat, tempRetard, "absent");
    WithEtatNewKey(t, k, etat, tempRetard, "retard");
    UpsertKeys(t, prenom, nom, date, etat, tempRetard);
    NameTextsAdd(t.rows.Keys, k);
  }

  /** An upsert stores exactly the keys stored before and its own. */
  lemma UpsertKeys(t: Table, prenom: string, nom: string, date: string, etat: Option<string>, tempRetard: int)
    requires Valid(t)
    ensures Upsert(t, prenom, nom, date, etat, tempRetard).rows.Keys == t.rows.Keys + {Key(prenom, nom, date)}
  {
  }

  lemma NameTextsAdd(keys: set<Key>, k: Key)
    ensures NameTexts(keys + {k}) == NameTexts(keys) + {k.prenom + k.nom}
    ensures |NameTexts(keys + {k})| == |NameTexts(keys)| + (if k.prenom + k.nom in NameTexts(keys) then 0 else 1)
  {
    assert NameTexts(keys + {k}) == NameTexts(keys) + {k.prenom + k.nom};
  }

  lemma WithEtatNewKey(t: Table, k: Key, etat: Option<string>, n: int, e: string)
    requires k !in t.rows
    ensures var t' := Table(t.rows[k := Entry(etat, n)], t.order + [k]);
      |WithEtat(t', e)| == |WithEtat(t, e)| + (if etat == Some(e) then 1 else 0)
  {
    var t' := Table(t.rows[k := Entry(etat, n)], t.order + [k]);
    if etat == Some(e) {
      assert WithEtat(t', e) == WithEtat(t, e) + {k};
    } else {
      assert WithEtat(t', e) == WithEtat(t, e);
    }
  }

  /** Upserting a key already stored, as every `save_all` after the first
      does: the count of the old `etat` drops by one, that of the new `etat`
      rises by one, and the student count stays. */
  lemma UpsertExistingKeyStats(t: Table, prenom: string, nom: string, date: string, etat: Option<string>, tempRetard: int)
    requires Valid(t) && Key(prenom, nom, date) in t.rows
    ensures var before := t.rows[Key(prenom, nom, date)].etat;
      var (s, s') := (GetStats(t), GetStats(Upsert(t, prenom, nom, date, etat, tempRetard)));
      && s'.presents == s.presents - (if before == Some("present") then 1 else 0) + (if etat == Some("present") then 1 else 0)
      && s'.absents == s.absents - (if before == Some("absent") then 1 else 0) + (if etat == Some("absent") then 1 else 0)
      && s'.retards == s.retards - (if before == Some("retard") then 1 else 0) + (if etat == Some("retard") then 1 else 0)
      && s'.totalEtudiants == s.totalEtudiants
  {
    var k := Key(prenom, nom, date);
    WithEtatExistingKey(t, k, etat, tempRetard, "present");
    WithEtatExistingKey(t, k, etat, tempRetard, "absent");
    WithEtatExistingKey(t, k, etat, tempRetard, "retard");
    UpsertKeys(t, prenom, nom, date, etat, tempRetard);
    assert t.rows.Keys + {k} == t.rows.Keys;
  }

  lemma WithEtatExistingKey(t: Table, k: Key, etat: Option<string>, n: int, e: string)
    requires k in t.rows
    ensures var t' := Table(t.rows[k := Entry(etat, n)], t.order);
      |WithEtat(t', e)| == |WithEtat(t, e)| - (if t.rows[k].etat == Some(e) then 1 else 0) + (if etat == Some(e) then 1 else 0)
  {
    var t' := Table(t.rows[k := Entry(etat, n)], t.order);
    var others := WithEtat(t, e) - {k};
    assert |others| == |WithEtat(t, e)| - (if t.rows[k].etat == Some(e) then 1 else 0);
    if etat == Some(e) {
      assert WithEtat(t', e) == others + {k};
    } else {
      assert WithEtat(t', e) == others;
    }
  }

  /** `total_etudiants` counts concatenations, not pairs: "Anna" "Belle" and
      "Ann" "aBelle" are two rows, yet one student. */
  lemma TotalCountsConcatenations()
    ensures var t := Upsert(Upsert(Empty(), "Anna", "Belle", "2024-01-08", Some("present"), 0),
                            "Ann", "aBelle", "2024-01-08", Some("present"), 0);
      |t.rows| == 2 && GetStats(t).totalEtudiants == 1 && GetStats(t).presents == 2
  {
    var k1 := Key("Anna", "Belle", "2024-01-08");
    var k2 := Key("Ann", "aBelle", "2024-01-08");
    var t := Upsert(Upsert(Empty(), "Anna", "Belle", "2024-01-08", Some("present"), 0),
                    "Ann", "aBelle", "2024-01-08", Some("present"), 0);
    assert k1 != k2 by { assert k1.prenom != k2.prenom; }
    assert t.rows.Keys == {k1, k2};
    assert k1.prenom + k1.nom == "AnnaBelle";
    assert k2.prenom + k2.nom == "AnnaBelle";
    assert NameTexts(t.rows.Keys) == {"AnnaBelle"} by {
      forall x | x in NameTexts(t.rows.Keys)
        ensures x == "AnnaBelle"
      {
        var k :| k in t.rows.Keys && x == k.prenom + k.nom;
      }
      assert "AnnaBelle" in NameTexts(t.rows.Keys);
    }
    assert WithEtat(t, "present") == {k1, k2};
  }
}
