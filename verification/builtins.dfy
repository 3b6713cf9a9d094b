/** The Python built-ins the attendance code leans on, stated over Dafny values:
    ordering of `str`, `str.split` with an explicit separator, `int()` on a
    decimal literal, tuple unpacking of a split, and `list.remove`.
 */
module Builtins {
  import opened Wrappers

  // ---------------------------------------------------------------------------
  // String ordering
  // ---------------------------------------------------------------------------

  /** Python's `a < b` on `str`: code points compared left to right, and a proper
      prefix sorts before the longer string. SQLite's default BINARY collation
      compares UTF-8 bytes, which orders text the same way. */
  predicate Less(a: string, b: string)
    decreases |a|
  {
    |b| > 0 && (|a| == 0 || a[0] < b[0] || (a[0] == b[0] && Less(a[1..], b[1..])))
  }

  /** Python's `a <= b` on `str`. */
  predicate LessEq(a: string, b: string)
  {
    a == b || Less(a, b)
  }

  lemma {:induction false} LessIrreflexive(a: string)
    ensures !Less(a, a)
    decreases |a|
  {
    if |a| > 0 {
      LessIrreflexive(a[1..]);
    }
  }

  lemma {:induction false} LessAsymmetric(a: string, b: string)
    ensures Less(a, b) ==> !Less(b, a)
    decreases |a|
  {
    if |a| > 0 && |b| > 0 && a[0] == b[0] {
      LessAsymmetric(a[1..], b[1..]);
    }
  }

  lemma {:induction false} LessTransitive(a: string, b: string, c: string)
    requires Less(a, b) && Less(b, c)
    ensures Less(a, c)
    decreases |a|
  {
    if |a| > 0 && a[0] == b[0] && b[0] == c[0] {
      LessTransitive(a[1..], b[1..], c[1..]);
    }
  }

  /** Any two strings are comparable: `<` on `str` is a strict total order. */
  lemma {:induction false} LessTotal(a: string, b: string)
    ensures Less(a, b) || a == b || Less(b, a)
    decreases |a|
  {
    if |a| > 0 && |b| > 0 && a[0] == b[0] {
      LessTotal(a[1..], b[1..]);
      if a[1..] == b[1..] {
        assert a == [a[0]] + a[1..] && b == [b[0]] + b[1..];
      }
    }
  }

  /** Comparing two concatenations whose left parts have equal length compares
      the left parts first and falls back to the right parts on a tie. */
  lemma {:induction false} LessConcat(p: string, q: string, p': string, q': string)
    requires |p| == |p'|
    ensures Less(p + q, p' + q') <==> Less(p, p') || (p == p' && Less(q, q'))
    decreases |p|
  {
    if |p| == 0 {
      assert p + q == q && p' + q' == q';
    } else {
      assert (p + q)[0] == p[0] && (p' + q')[0] == p'[0];
      assert (p + q)[1..] == p[1..] + q && (p' + q')[1..] == p'[1..] + q';
      LessConcat(p[1..], q, p'[1..], q');
      if p[0] == p'[0] && p[1..] == p'[1..] {
        assert p == [p[0]] + p[1..] && p' == [p'[0]] + p'[1..];
      }
      if p == p' {
        assert p[1..] == p'[1..];
      }
    }
  }

  // ---------------------------------------------------------------------------
  // str.split(sep) and its inverse sep.join(parts)
  // ---------------------------------------------------------------------------

  /** `sep.join(parts)` for a one-character separator. */
  function Join(parts: seq<string>, sep: char): string
    requires |parts| > 0
  {
    if |parts| == 1 then parts[0] else parts[0] + [sep] + Join(parts[1..], sep)
  }

  predicate SepFree(parts: seq<string>, sep: char)
  {
    forall i :: 0 <= i < |parts| ==> sep !in parts[i]
  }

  /** `s.split(sep)` with an explicit separator: every occurrence splits, empty
      pieces are kept, and the empty string splits into one empty piece. The
      pieces never contain the separator and joining them gives `s` back. */
  function Split(s: string, sep: char): (parts: seq<string>)
    ensures |parts| > 0
    ensures SepFree(parts, sep)
    ensures Join(parts, sep) == s
    decreases |s|
  {
    if |s| == 0 then [""]
    else
      var rest := Split(s[1..], sep);
      if s[0] == sep then
        assert ([""] + rest)[1..] == rest;
        assert s == [sep] + s[1..];
        [""] + rest
      else
        var head := [s[0]] + rest[0];
        assert ([head] + rest[1..])[1..] == rest[1..];
        assert |rest| > 1 ==> Join(rest, sep) == rest[0] + [sep] + Join(rest[1..], sep);
        assert s == [s[0]] + s[1..];
        [head] + rest[1..]
  }

  lemma JoinCons(p: string, tail: seq<string>, sep: char)
    requires |tail| > 0
    ensures Join([p] + tail, sep) == p + [sep] + Join(tail, sep)
  {
    assert ([p] + tail)[1..] == tail;
  }

  /** How a join begins: with the first piece, or with the separator when the
      first piece is empty and more pieces follow. */
  lemma JoinStart(parts: seq<string>, sep: char)
    requires |parts| > 0
    ensures |parts[0]| > 0 ==> |Join(parts, sep)| > 0 && Join(parts, sep)[0] == parts[0][0]
    ensures |parts[0]| == 0 && |parts| > 1 ==> Join(parts, sep) == [sep] + Join(parts[1..], sep)
    ensures |parts[0]| == 0 && |parts| == 1 ==> Join(parts, sep) == ""
  {
  }

  /** `Split` is the only way to cut `s` into separator-free pieces that join
      back to `s`; so splitting a join gives the pieces back. */
  lemma {:induction false} SplitOfJoin(parts: seq<string>, sep: char)
    requires |parts| > 0 && SepFree(parts, sep)
    ensures Split(Join(parts, sep), sep) == parts
    decreases |Join(parts, sep)|
  {
    var s := Join(parts, sep);
    JoinStart(parts, sep);
    if |parts[0]| == 0 && |parts| == 1 {
      assert parts == [""];
    } else if |parts[0]| == 0 {
      assert s[0] == sep && s[1..] == Join(parts[1..], sep);
      SplitOfJoin(parts[1..], sep);
      assert parts == [""] + parts[1..];
    } else {
      assert parts[0][0] in parts[0];
      assert s[0] != sep;
      var parts' := [parts[0][1..]] + parts[1..];
      assert SepFree(parts', sep) by {
        forall i | 0 <= i < |parts'|
          ensures sep !in parts'[i]
        {
          if i == 0 {
            assert forall c :: c in parts[0][1..] ==> c in parts[0];
          } else {
            assert parts'[i] == parts[i];
          }
        }
      }
      assert parts[0] == [parts[0][0]] + parts[0][1..];
      if |parts| == 1 {
        assert Join(parts', sep) == s[1..];
      } else {
        JoinCons(parts[0][1..], parts[1..], sep);
        JoinCons(parts[0], parts[1..], sep);
        assert parts == [parts[0]] + parts[1..];
        assert Join(parts', sep) == s[1..];
      }
      SplitOfJoin(parts', sep);
      assert parts == [[s[0]] + parts'[0]] + parts'[1..];
    }
  }

  /** A separator-free first piece followed by the separator splits off as
      the first piece. */
  lemma SplitAfterFree(p: string, rest: string, sep: char)
    requires sep !in p
    ensures Split(p + [sep] + rest, sep) == [p] + Split(rest, sep)
  {
    var tail := Split(rest, sep);
    JoinCons(p, tail, sep);
    assert SepFree([p] + tail, sep) by {
      assert forall i :: 1 <= i < |[p] + tail| ==> ([p] + tail)[i] == tail[i - 1];
    }
    SplitOfJoin([p] + tail, sep);
  }

  /** A piece list of length one means the separator does not occur. */
  lemma SplitSingle(s: string, sep: char)
    ensures |Split(s, sep)| == 1 <==> sep !in s
  {
    var parts := Split(s, sep);
    if |parts| == 1 {
      assert s == parts[0];
    } else {
      JoinCons(parts[0], parts[1..], sep);
      assert parts == [parts[0]] + parts[1..];
      assert s[|parts[0]|] == sep;
    }
  }

  /** The first two pieces of a split and what separates them: `s` is the
      first piece, the separator, then the second piece, which is followed
      either by the end of `s` or by another separator. */
  lemma SplitPrefix(s: string, sep: char)
    ensures var parts := Split(s, sep);
      |parts| > 1 ==>
        && s[..|parts[0]| + 1] == parts[0] + [sep]
        && var rest := s[|parts[0]| + 1..];
           && rest == Join(parts[1..], sep)
           && |parts[1]| <= |rest| && rest[..|parts[1]|] == parts[1]
           && (|parts[1]| == |rest| <==> |parts| == 2)
           && (|parts| > 2 ==> rest[|parts[1]|] == sep)
  {
    var parts := Split(s, sep);
    if |parts| > 1 {
      var p, tail := parts[0], parts[1..];
      assert parts == [p] + tail;
      JoinCons(p, tail, sep);
      var rest := Join(tail, sep);
      assert s == p + [sep] + rest;
      assert s[..|p| + 1] == p + [sep];
      assert s[|p| + 1..] == rest;
      JoinHead(tail, sep);
    }
  }

  /** A join begins with its first piece, which is the whole join exactly
      when it is the only piece and is otherwise followed by the separator. */
  lemma JoinHead(parts: seq<string>, sep: char)
    requires |parts| > 0
    ensures var j := Join(parts, sep);
      && |parts[0]| <= |j| && j[..|parts[0]|] == parts[0]
      && (|parts[0]| == |j| <==> |parts| == 1)
      && (|parts| > 1 ==> j[|parts[0]|] == sep)
  {
    if |parts| > 1 {
      var j := Join(parts, sep);
      assert j == parts[0] + [sep] + Join(parts[1..], sep);
      assert j[..|parts[0]|] == parts[0];
    }
  }

  /** `a, b = s.split(sep)`: the unpacking raises ValueError unless there are
      exactly two pieces, i.e. unless `sep` occurs exactly once. */
  function SplitPair(s: string, sep: char): (r: Result<(string, string)>)
    ensures r.Ok? ==> s == r.value.0 + [sep] + r.value.1
    ensures r.Ok? ==> sep !in r.value.0 && sep !in r.value.1
    ensures r.Ok? <==> |Split(s, sep)| == 2
    ensures r.Err? ==> r.error == ValueError
  {
    var parts := Split(s, sep);
    if |parts| == 2 then
      JoinCons(parts[0], parts[1..], sep);
      assert parts[1..] == [parts[1]];
      Ok((parts[0], parts[1]))
    else Err(ValueError)
  }

  /** Joining two separator-free pieces and unpacking the split recovers them. */
  lemma SplitPairOfJoin(a: string, b: string, sep: char)
    requires sep !in a && sep !in b
    ensures SplitPair(a + [sep] + b, sep) == Ok((a, b))
  {
    JoinCons(a, [b], sep);
    SplitOfJoin([a, b], sep);
  }

  // ---------------------------------------------------------------------------
  // int(text) for a decimal literal
  // ---------------------------------------------------------------------------

  /** The ASCII characters Python counts as whitespace: space, tab, line
      feed, vertical tab, form feed, carriage return and the four
      information separators 0x1C..0x1F. */
  predicate IsSpace(c: char)
  {
    c == ' ' || '\t' <= c <= '\r' || '\U{1C}' <= c <= '\U{1F}'
  }

  predicate IsDigit(c: char)
  {
    '0' <= c <= '9'
  }

  function DigitValue(c: char): (d: int)
    requires IsDigit(c)
    ensures 0 <= d <= 9
  {
    c as int - '0' as int
  }

  function StripLeft(s: string): (t: string)
    ensures |t| > 0 ==> !IsSpace(t[0])
    decreases |s|
  {
    if |s| > 0 && IsSpace(s[0]) then StripLeft(s[1..]) else s
  }

  function StripRight(s: string): (t: string)
    ensures |t| <= |s| && t == s[..|t|]
    ensures |t| > 0 ==> !IsSpace(t[|t| - 1])
    decreases |s|
  {
    if |s| > 0 && IsSpace(s[|s| - 1]) then StripRight(s[..|s| - 1]) else s
  }

  /** A run of digits in which single underscores may separate digits, as the
      Python grammar allows in integer literals (`1_000`). */
  predicate DigitGroups(s: string)
  {
    && |s| > 0
    && IsDigit(s[0])
    && IsDigit(s[|s| - 1])
    && (forall i :: 0 <= i < |s| ==> IsDigit(s[i]) || s[i] == '_')
    && (forall i :: 0 <= i < |s| - 1 ==> s[i] == '_' ==> s[i + 1] != '_')
  }

  function DropUnderscores(s: string): (ds: string)
    requires forall i :: 0 <= i < |s| ==> IsDigit(s[i]) || s[i] == '_'
    ensures forall i :: 0 <= i < |ds| ==> IsDigit(ds[i])
  {
    if |s| == 0 then ""
    else if s[0] == '_' then DropUnderscores(s[1..])
    else [s[0]] + DropUnderscores(s[1..])
  }

  /** Value of a digit string read in base ten, most significant digit first. */
  function DecimalValue(ds: string): (v: int)
    requires forall i :: 0 <= i < |ds| ==> IsDigit(ds[i])
    ensures v >= 0
  {
    if |ds| == 0 then 0
    else 10 * DecimalValue(ds[..|ds| - 1]) + DigitValue(ds[|ds| - 1])
  }

  /** `s.strip()` restricted to ASCII whitespace. */
  function Trim(s: string): (t: string)
    ensures |t| > 0 ==> !IsSpace(t[0]) && !IsSpace(t[|t| - 1])
  {
    StripRight(StripLeft(s))
  }

  /** A literal without its sign, if it has one. */
  function Unsigned(t: string): string
    requires |t| > 0
  {
    if t[0] == '-' || t[0] == '+' then t[1..] else t
  }

  /** `int(s)`: surrounding whitespace is ignored, one optional sign, then
      digit groups; anything else raises ValueError. Leading zeros are allowed. */
  function ParseInt(s: string): (r: Result<int>)
    ensures r.Ok? <==> |Trim(s)| > 0 && DigitGroups(Unsigned(Trim(s)))
    ensures r.Err? ==> r.error == ValueError
    ensures r.Ok? ==> (r.value < 0 ==> Trim(s)[0] == '-')
    ensures r.Ok? && Trim(s)[0] != '-' ==> r.value == DecimalValue(DropUnderscores(Unsigned(Trim(s))))
    ensures r.Ok? && Trim(s)[0] == '-' ==> r.value == -DecimalValue(DropUnderscores(Unsigned(Trim(s))))
  {
    var t := Trim(s);
    if |t| == 0 then Err(ValueError)
    else
      var negative := t[0] == '-';
      var body := Unsigned(t);
      if DigitGroups(body) then
        var v := DecimalValue(DropUnderscores(body));
        Ok(if negative then -v else v)
      else Err(ValueError)
  }

  /** A plain run of ASCII digits parses to its decimal value. */
  lemma ParseDigits(ds: string)
    requires |ds| > 0 && forall i :: 0 <= i < |ds| ==> IsDigit(ds[i])
    ensures ParseInt(ds) == Ok(DecimalValue(ds))
  {
    assert !IsSpace(ds[0]) && !IsSpace(ds[|ds| - 1]);
    assert StripLeft(ds) == ds;
    assert StripRight(ds) == ds;
    assert ds[0] != '-' && ds[0] != '+';
    assert DigitGroups(ds);
    DropNoUnderscores(ds);
  }

  lemma {:induction false} DropNoUnderscores(ds: string)
    requires forall i :: 0 <= i < |ds| ==> IsDigit(ds[i])
    ensures DropUnderscores(ds) == ds
  {
    if |ds| > 0 {
      DropNoUnderscores(ds[1..]);
      assert ds == [ds[0]] + ds[1..];
    }
  }

  // ---------------------------------------------------------------------------
  // list.remove(x)
  // ---------------------------------------------------------------------------

  /** `xs.remove(x)`: drops the first occurrence of `x`, or raises ValueError
      when `x` is not in the list. */
  function RemoveFirst<T(==)>(xs: seq<T>, x: T): (r: Result<seq<T>>)
    ensures r.Ok? <==> x in xs
    ensures r.Err? ==> r.error == ValueError
    ensures r.Ok? ==> multiset(r.value) == multiset(xs) - multiset{x}
    ensures r.Ok? ==> |r.value| == |xs| - 1
    ensures r.Ok? ==> var i := IndexOf(xs, x); r.value == xs[..i] + xs[i + 1..]
  {
    if x in xs then RemoveAt(xs, IndexOf(xs, x)); RemoveFirstCutsFirst(xs, x); RemoveFirstFrom(xs, x)
    else RemoveFirstFrom(xs, x)
  }

  /** The recursive search behind `RemoveFirst`. */
  function RemoveFirstFrom<T(==)>(xs: seq<T>, x: T): (r: Result<seq<T>>)
    ensures r.Ok? <==> x in xs
    ensures r.Err? ==> r.error == ValueError
  {
    if |xs| == 0 then Err(ValueError)
    else if xs[0] == x then Ok(xs[1..])
    else
      match RemoveFirstFrom(xs[1..], x)
      case Err(e) => Err(e)
      case Ok(rest) => Ok([xs[0]] + rest)
  }

  /** The search cuts out exactly the first occurrence. */
  lemma {:induction false} RemoveFirstCutsFirst<T>(xs: seq<T>, x: T)
    requires x in xs
    ensures var i := IndexOf(xs, x); RemoveFirstFrom(xs, x) == Ok(xs[..i] + xs[i + 1..])
  {
    if xs[0] == x {
      assert xs[..0] + xs[1..] == xs[1..];
    } else {
      var tail := xs[1..];
      InTail(xs, x);
      RemoveFirstCutsFirst(tail, x);
      CutBehindHead(xs, IndexOf(tail, x));
    }
  }

  /** An element that is not the head is in the tail. */
  lemma InTail<T>(xs: seq<T>, x: T)
    requires x in xs && xs[0] != x
    ensures x in xs[1..]
  {
    var k :| 0 <= k < |xs| && xs[k] == x;
    assert xs[1..][k - 1] == x;
  }

  /** Cutting position `j` out of the tail is cutting position `j + 1` out
      of the whole list. */
  lemma CutBehindHead<T>(xs: seq<T>, j: nat)
    requires j + 1 < |xs|
    ensures [xs[0]] + (xs[1..][..j] + xs[1..][j + 1..]) == xs[..j + 1] + xs[j + 2..]
  {
    assert [xs[0]] + xs[1..][..j] == xs[..j + 1];
    assert xs[1..][j + 1..] == xs[j + 2..];
  }

  /** Cutting out position `i` removes one copy of `xs[i]`. */
  lemma RemoveAt<T>(xs: seq<T>, i: nat)
    requires i < |xs|
    ensures multiset(xs[..i] + xs[i + 1..]) == multiset(xs) - multiset{xs[i]}
    ensures |xs[..i] + xs[i + 1..]| == |xs| - 1
  {
    assert xs == xs[..i] + [xs[i]] + xs[i + 1..];
  }

  // ---------------------------------------------------------------------------
  // Lists without duplicates
  // ---------------------------------------------------------------------------

  predicate Distinct<T(==)>(s: seq<T>)
  {
    forall i, j :: 0 <= i < j < |s| ==> s[i] != s[j]
  }

  /** The position of the first occurrence of `x`. */
  function IndexOf<T(==)>(s: seq<T>, x: T): (i: nat)
    requires x in s
    ensures i < |s| && s[i] == x
    ensures x !in s[..i]
  {
    if s[0] == x then 0 else 1 + IndexOf(s[1..], x)
  }

  lemma {:induction false} DistinctByMultiset<T>(s: seq<T>)
    ensures Distinct(s) <==> forall x :: multiset(s)[x] <= 1
  {
    if |s| > 0 {
      DistinctByMultiset(s[1..]);
      assert s == [s[0]] + s[1..];
      if Distinct(s) {
        assert s[0] !in s[1..];
      }
      if forall x :: multiset(s)[x] <= 1 {
        assert multiset(s[1..])[s[0]] == 0;
        assert forall x :: multiset(s[1..])[x] <= multiset(s)[x];
        forall i, j | 0 <= i < j < |s|
          ensures s[i] != s[j]
        {
          if i == 0 {
            assert s[j] in s[1..];
          } else {
            assert s[1..][i - 1] == s[i] && s[1..][j - 1] == s[j];
          }
        }
      }
    }
  }

  /** A reordering of a list without duplicates has no duplicates. */
  lemma DistinctPermutation<T>(s: seq<T>, r: seq<T>)
    requires Distinct(s) && multiset(r) == multiset(s)
    ensures Distinct(r)
  {
    DistinctByMultiset(s);
    DistinctByMultiset(r);
  }

  /** Removing an element from a list without duplicates leaves a list
      without duplicates that lacks exactly that element. */
  lemma RemoveFirstDistinct<T>(xs: seq<T>, x: T)
    requires Distinct(xs) && x in xs
    ensures RemoveFirst(xs, x).Ok?
    ensures var r := RemoveFirst(xs, x).value;
      Distinct(r) && x !in r && forall y :: y != x ==> (y in r <==> y in xs)
  {
    var r := RemoveFirst(xs, x).value;
    DistinctByMultiset(xs);
    assert forall y :: multiset(r)[y] <= multiset(xs)[y];
    DistinctByMultiset(r);
    assert x !in r by {
      assert multiset(xs)[x] == 1;
      assert multiset(r)[x] == 0;
    }
    forall y | y != x
      ensures y in r <==> y in xs
    {
      assert multiset(r)[y] == multiset(xs)[y];
    }
  }
}
