/** Wall-clock times as the program writes them: `strftime("%H:%M:%S")`, i.e.
    zero-padded "HH:MM:SS", and timestamps "<date> HH:MM:SS". The program
    compares such texts as strings and reads hours and minutes back with
    `int()`; this module relates both operations to the time they denote.
 */
module TimeOfDay {
  import opened Wrappers
  import opened Builtins

  datatype Time = Time(h: int, m: int, s: int) {

    predicate Valid() {
      0 <= h < 24 && 0 <= m < 60 && 0 <= s < 60
    }

    function Seconds(): int {
      h * 3600 + m * 60 + s
    }

    function Minutes(): int {
      h * 60 + m
    }
  }

  function Digit(n: int): (c: char)
    requires 0 <= n < 10
    ensures IsDigit(c) && DigitValue(c) == n
  {
    ('0' as int + n) as char
  }

  /** `%02d` */
  function Pad2(n: int): (text: string)
    requires 0 <= n < 100
    ensures |text| == 2 && IsDigit(text[0]) && IsDigit(text[1])
  {
    [Digit(n / 10), Digit(n % 10)]
  }

  /** `strftime("%H:%M:%S")` */
  function Format(t: Time): (text: string)
    requires t.Valid()
    ensures |text| == 8
  {
    Pad2(t.h) + ":" + Pad2(t.m) + ":" + Pad2(t.s)
  }

  /** A timestamp as `strftime("%Y-%m-%d %H:%M:%S")` writes it, with the date
      part given as text. */
  function Stamp(date: string, t: Time): string
    requires t.Valid()
  {
    date + " " + Format(t)
  }

  /** `int(parts[0]) * 60 + int(parts[1])` where `parts = heure.split(":")`:
      hours and minutes of the text, seconds ignored. The first piece is
      converted before the second is looked up, so a malformed hour raises
      ValueError even when there is no second piece (IndexError). */
  function MinutesFromTime(heure: string): (r: Result<int>)
    ensures var parts := Split(heure, ':');
      r.Ok? <==> ParseInt(parts[0]).Ok? && |parts| > 1 && ParseInt(parts[1]).Ok?
    ensures var parts := Split(heure, ':');
      r.Ok? ==> r.value == ParseInt(parts[0]).value * 60 + ParseInt(parts[1]).value
    ensures r.Err? ==> r.error == ValueError || r.error == IndexError
    ensures r.Err? && r.error == IndexError <==> ParseInt(Split(heure, ':')[0]).Ok? && ':' !in heure
  {
    SplitSingle(heure, ':');
    var parts := Split(heure, ':');
    var hours :- ParseInt(parts[0]);
    if |parts| < 2 then Err(IndexError)
    else
      var minutes :- ParseInt(parts[1]);
      Ok(hours * 60 + minutes)
  }

  lemma ParsePad2(n: int)
    requires 0 <= n < 100
    ensures ParseInt(Pad2(n)) == Ok(n)
  {
    var p := Pad2(n);
    ParseDigits(p);
    assert p[..1] == [p[0]];
    assert DecimalValue(p) == 10 * DecimalValue(p[..1]) + DigitValue(p[1]);
  }

  lemma SplitFormat(t: Time)
    requires t.Valid()
    ensures Split(Format(t), ':') == [Pad2(t.h), Pad2(t.m), Pad2(t.s)]
  {
    var parts := [Pad2(t.h), Pad2(t.m), Pad2(t.s)];
    JoinCons(Pad2(t.m), [Pad2(t.s)], ':');
    JoinCons(Pad2(t.h), [Pad2(t.m), Pad2(t.s)], ':');
    assert parts == [Pad2(t.h)] + [Pad2(t.m), Pad2(t.s)];
    assert Join(parts, ':') == Format(t);
    SplitOfJoin(parts, ':');
  }

  /** Reading a formatted time back gives its minutes since midnight; the
      seconds play no part. */
  lemma {:induction false} MinutesOfFormat(t: Time)
    requires t.Valid()
    ensures MinutesFromTime(Format(t)) == Ok(t.Minutes())
  {
    var text := Format(t);
    var parts := [Pad2(t.h), Pad2(t.m), Pad2(t.s)];
    assert Split(text, ':') == parts by {
      SplitFormat(t);
    }
    assert ParseInt(parts[0]) == Ok(t.h) by {
      ParsePad2(t.h);
    }
    assert ParseInt(parts[1]) == Ok(t.m) by {
      ParsePad2(t.m);
    }
    MinutesOfPieces(text, parts, t.h, t.m, t.Minutes());
  }

  /** `_minutes_from_time` on a text whose first two pieces read as numbers. */
  lemma MinutesOfPieces(heure: string, parts: seq<string>, h: int, m: int, total: int)
    requires Split(heure, ':') == parts && |parts| >= 2
    requires ParseInt(parts[0]) == Ok(h) && ParseInt(parts[1]) == Ok(m)
    requires total == h * 60 + m
    ensures MinutesFromTime(heure) == Ok(total)
  {
  }

  lemma Pad2Order(x: int, y: int)
    requires 0 <= x < 100 && 0 <= y < 100
    ensures Less(Pad2(x), Pad2(y)) <==> x < y
    ensures Pad2(x) == Pad2(y) <==> x == y
  {
    var p, q := Pad2(x), Pad2(y);
    assert p[1..] == [p[1]] && q[1..] == [q[1]];
    assert Less(p[1..], q[1..]) <==> p[1] < q[1] by {
      assert p[1..][1..] == [] && q[1..][1..] == [];
    }
    assert x == 10 * (x / 10) + x % 10;
    assert y == 10 * (y / 10) + y % 10;
    if p == q {
      assert p[0] == q[0] && p[1] == q[1];
    }
  }

  /** For well-formed times the program's string comparison is the
      chronological order, so comparing "HH:MM:SS" texts is sound. */
  lemma {:induction false} FormatOrder(a: Time, b: Time)
    requires a.Valid() && b.Valid()
    ensures Less(Format(a), Format(b)) <==> a.Seconds() < b.Seconds()
  {
    Pad2Order(a.h, b.h);
    Pad2Order(a.m, b.m);
    Pad2Order(a.s, b.s);
    var colon: string := ":";
    assert Format(a) == Pad2(a.h) + (colon + (Pad2(a.m) + (colon + Pad2(a.s))));
    assert Format(b) == Pad2(b.h) + (colon + (Pad2(b.m) + (colon + Pad2(b.s))));
    LessConcat(Pad2(a.h), colon + (Pad2(a.m) + (colon + Pad2(a.s))),
               Pad2(b.h), colon + (Pad2(b.m) + (colon + Pad2(b.s))));
    LessConcat(colon, Pad2(a.m) + (colon + Pad2(a.s)), colon, Pad2(b.m) + (colon + Pad2(b.s)));
    LessConcat(Pad2(a.m), colon + Pad2(a.s), Pad2(b.m), colon + Pad2(b.s));
    LessConcat(colon, Pad2(a.s), colon, Pad2(b.s));
    LessIrreflexive(colon);
  }

  /** Formatting is injective on valid times. */
  lemma FormatInjective(a: Time, b: Time)
    requires a.Valid() && b.Valid()
    ensures Format(a) == Format(b) <==> a == b
  {
    if Format(a) == Format(b) {
      FormatOrder(a, b);
      FormatOrder(b, a);
      LessIrreflexive(Format(a));
    }
  }

  /** The time part of a well-formed timestamp is its formatted time. */
  lemma SplitStamp(date: string, t: Time)
    requires t.Valid() && ' ' !in date
    ensures SplitPair(Stamp(date, t), ' ') == Ok((date, Format(t)))
  {
    var f := Format(t);
    assert forall i :: 0 <= i < |f| ==> f[i] != ' ' by {
      assert f == [f[0], f[1], f[2], f[3], f[4], f[5], f[6], f[7]];
    }
    assert ' ' !in f;
    assert Stamp(date, t) == date + [' '] + f;
    SplitPairOfJoin(date, f, ' ');
  }
}
