/**
 http_date and http_date_parse of src/libaxil.c: an IMF-fixdate (section 7.1.1.1 of
 RFC 7231) written with strftime and read back with sscanf.
 */
module HttpDate {
  import opened CivilDate
  import opened Text

  const DAYS: seq<string> := ["Sun", "Mon", "Tue", "Wed", "Thu", "Fri", "Sat"]
  const MONTHS: seq<string> :=
    ["Jan", "Feb", "Mar", "Apr", "May", "Jun", "Jul", "Aug", "Sep", "Oct", "Nov", "Dec"]

  // ----- printing ------------------------------------------------------------------

  function Digit(n: nat): (c: char)
    requires n < 10
    ensures IsDigit(c) && DigitValue(c) == n
  {
    '0' + n as char
  }

  function Decimal(n: nat): (s: string)
    ensures s != "" && forall i :: 0 <= i < |s| ==> IsDigit(s[i])
  {
    if n < 10 then [Digit(n)] else Decimal(n / 10) + [Digit(n % 10)]
  }

  /** `%d` and `%Y`. */
  function Signed(n: int): string
  {
    if n < 0 then "-" + Decimal(-n) else Decimal(n)
  }

  /** `%02d`, `%H`, `%M`, `%S`. */
  function TwoDigits(n: nat): (s: string)
    requires n < 100
  {
    [Digit(n / 10), Digit(n % 10)]
  }

  function Clock(t: DateTime): string
    requires Valid(t)
  {
    TwoDigits(t.hour) + (":" + (TwoDigits(t.minute) + (":" + (TwoDigits(t.second) + " GMT"))))
  }

  function DayAndClock(t: DateTime): string
    requires Valid(t)
  {
    TwoDigits(t.date.day) + (" " + (MONTHS[t.date.month - 1]
      + (" " + (Signed(t.date.year) + (" " + Clock(t))))))
  }

  /** strftime with "%a, %d %b %Y %H:%M:%S GMT" on gmtime of `time`. */
  function Print(time: int): string
  {
    DAYS[(time / 86400 + 4) % 7] + (", " + DayAndClock(Gmtime(time)))
  }

  // ----- scanning ------------------------------------------------------------------

  predicate IsDigit(c: char) { '0' <= c <= '9' }

  function DigitValue(c: char): (v: nat)
    requires IsDigit(c)
  {
    c as int - '0' as int
  }

  predicate IsLetter(c: char) { 'a' <= c <= 'z' || 'A' <= c <= 'Z' }

  predicate IsSpace(c: char) { c == ' ' || '\t' as int <= c as int <= '\r' as int }

  /** A conversion that failed, or its value and the rest of the text. */
  datatype Scan<T> = Mismatch | Scanned(value: T, rest: string)

  function SkipSpaces(s: string): string
  {
    if s != "" && IsSpace(s[0]) then SkipSpaces(s[1..]) else s
  }

  /** The digits from the front, added to those already read. */
  function Digits(s: string, sofar: nat): Scan<nat>
  {
    if s != "" && IsDigit(s[0]) then Digits(s[1..], sofar * 10 + DigitValue(s[0])) else Scanned(sofar, s)
  }

  /** `%d`. */
  function ScanInt(s: string): Scan<int>
  {
    var t := SkipSpaces(s);
    var negative := t != "" && t[0] == '-';
    var u := if t != "" && (t[0] == '-' || t[0] == '+') then t[1..] else t;
    if u == "" || !IsDigit(u[0]) then Mismatch
    else
      var r := Digits(u, 0);
      if r.Mismatch? then Mismatch else Scanned(if negative then -(r.value as int) else r.value, r.rest)
  }

  /** `%3[A-Za-z]`. */
  function ScanWord(s: string): Scan<string>
  {
    if s == "" || !IsLetter(s[0]) then Mismatch
    else if |s| == 1 || !IsLetter(s[1]) then Scanned(s[..1], s[1..])
    else if |s| == 2 || !IsLetter(s[2]) then Scanned(s[..2], s[2..])
    else Scanned(s[..3], s[3..])
  }

  function ScanChar(s: string, c: char): Scan<()>
  {
    if s != "" && s[0] == c then Scanned((), s[1..]) else Mismatch
  }

  /** month_eq; a shorter word differs at its NUL. */
  predicate MonthEq(a: string, b: string)
    requires |b| == 3
  {
    |a| >= 3 && forall i :: 0 <= i < 3 ==> ToLower(a[i]) == ToLower(b[i])
  }

  /** The text names the month with that index, in whatever case. */
  predicate Names(mon: string, j: nat)
    requires j < 12
  {
    MonthEq(mon, MONTHS[j])
  }

  /** month_number: the index of the first name that matches, or -1 when none does. */
  method MonthNumber(mon: string) returns (m: int)
    ensures m == MonthIndex(mon, 0) && -1 <= m < 12
    ensures 0 <= m ==> Names(mon, m) && forall j :: 0 <= j < m ==> !Names(mon, j)
    ensures m == -1 <==> forall j :: 0 <= j < 12 ==> !Names(mon, j)
  {
    hide Names, MonthIndex;
    m := 0;
    while m < 12
      invariant 0 <= m <= 12 && forall j :: 0 <= j < m ==> !Names(mon, j)
    {
      if Names(mon, m) {
        IndexSkips(mon, 0, m);
        IndexFound(mon, m);
        return;
      }
      m := m + 1;
    }
    IndexSkips(mon, 0, 12);
    IndexEnds(mon);
    m := -1;
  }

  lemma {:induction false} IndexSkips(mon: string, i: nat, k: nat)
    requires i <= k <= 12 && forall j :: i <= j < k ==> !Names(mon, j)
    ensures MonthIndex(mon, i) == MonthIndex(mon, k)
    decreases k - i
  {
    if i < k {
      IndexStep(mon, i);
      hide Names, MonthIndex;
      IndexSkips(mon, i + 1, k);
    }
  }

  lemma IndexStep(mon: string, i: nat)
    requires i < 12 && !Names(mon, i)
    ensures MonthIndex(mon, i) == MonthIndex(mon, i + 1)
  {
  }

  lemma IndexFound(mon: string, i: nat)
    requires i < 12 && Names(mon, i)
    ensures MonthIndex(mon, i) == i
  {
  }

  lemma IndexEnds(mon: string)
    ensures MonthIndex(mon, 12) == -1
  {
  }

  function MonthIndex(mon: string, i: nat): int
    requires i <= 12
    decreases 12 - i
  {
    if i == 12 then -1 else if MonthEq(mon, MONTHS[i]) then i else MonthIndex(mon, i + 1)
  }

  /** "%d:%d:%d": the clock, and nothing asked of what follows. */
  function ParseClock(s: string): Scan<(int, int, int)>
  {
    var h := ScanInt(s);
    if h.Mismatch? then Mismatch
    else
      var c1 := ScanChar(h.rest, ':');
      if c1.Mismatch? then Mismatch
      else
        var m := ScanInt(c1.rest);
        if m.Mismatch? then Mismatch
        else
          var c2 := ScanChar(m.rest, ':');
          if c2.Mismatch? then Mismatch
          else
            var x := ScanInt(c2.rest);
            if x.Mismatch? then Mismatch else Scanned((h.value, m.value, x.value), x.rest)
  }

  /** "%d %3[A-Za-z] %d ": day, month name, year. */
  function ParseDay(s: string): Scan<(int, string, int)>
  {
    var d := ScanInt(s);
    if d.Mismatch? then Mismatch
    else
      var w := ScanWord(SkipSpaces(d.rest));
      if w.Mismatch? then Mismatch
      else
        var y := ScanInt(w.rest);
        if y.Mismatch? then Mismatch else Scanned((d.value, w.value, y.value), SkipSpaces(y.rest))
  }

  datatype Parsed = Bad | Fields(year: int, month: nat, day: int, hour: int, minute: int, second: int)

  /** Day, month, year and clock. */
  function ParseFields(s: string): Parsed
  {
    var d := ParseDay(s);
    if d.Mismatch? then Bad
    else
      var c := ParseClock(d.rest);
      if c.Mismatch? then Bad
      else
        var m := MonthIndex(d.value.1, 0);
        if m < 0 then Bad else Fields(d.value.2, m + 1, d.value.0, c.value.0, c.value.1, c.value.2)
  }

  /** http_date_parse up to the call of tm_to_time_t_utc: "%3[A-Za-z], " and the rest. */
  function Parse(s: string): Parsed
  {
    var a := ScanWord(s);
    if a.Mismatch? then Bad
    else
      var comma := ScanChar(a.rest, ',');
      if comma.Mismatch? then Bad else ParseFields(SkipSpaces(comma.rest))
  }

  // ----- printing and reading back ---------------------------------------------------

  predicate StartsDigitless(s: string)
  {
    s == "" || !IsDigit(s[0])
  }

  lemma {:induction false} DigitsSplit(ds: string, more: string, sofar: nat)
    requires forall i :: 0 <= i < |ds| ==> IsDigit(ds[i])
    ensures Digits(ds, sofar).Scanned?
    ensures Digits(ds + more, sofar) == Digits(more, Digits(ds, sofar).value)
  {
    if ds == "" {
      assert ds + more == more;
    } else {
      assert (ds + more)[1..] == ds[1..] + more;
      DigitsSplit(ds[1..], more, sofar * 10 + DigitValue(ds[0]));
    }
  }

  lemma {:induction false} DigitsAppend(n: nat, rest: string)
    requires StartsDigitless(rest)
    ensures Digits(Decimal(n) + rest, 0) == Scanned(n, rest)
  {
    if n < 10 {
      assert Decimal(n) + rest == [Digit(n)] + rest && ([Digit(n)] + rest)[1..] == rest;
    } else {
      var last := [Digit(n % 10)];
      assert Decimal(n) + rest == Decimal(n / 10) + (last + rest);
      assert Digits(last + rest, n / 10) == Scanned(n, rest) by {
        assert (last + rest)[1..] == rest;
      }
      hide Digits, Digit;
      DigitsAppend(n / 10, "");
      assert Decimal(n / 10) + "" == Decimal(n / 10);
      DigitsSplit(Decimal(n / 10), last + rest, 0);
    }
  }

  /** `%d` on text that starts with a digit, or with a minus and a digit. */
  lemma ScanIntPlain(s: string)
    requires s != "" && IsDigit(s[0])
    ensures var r := Digits(s, 0);
      r.Scanned? ==>
        && ScanInt(s) == Scanned(r.value as int, r.rest)
        && ScanInt("-" + s) == Scanned(-(r.value as int), r.rest)
        && ScanInt("+" + s) == Scanned(r.value as int, r.rest)
  {
    assert ("-" + s)[1..] == s && ("+" + s)[1..] == s;
  }

  lemma ScanSigned(n: int, rest: string)
    requires StartsDigitless(rest)
    ensures ScanInt(Signed(n) + rest) == Scanned(n, rest)
  {
    var m: nat := if n < 0 then -n else n;
    DigitsAppend(m, rest);
    assert (Decimal(m) + rest)[0] == Decimal(m)[0];
    ScanIntPlain(Decimal(m) + rest);
    assert ("-" + Decimal(m)) + rest == "-" + (Decimal(m) + rest);
  }

  lemma ScanTwoDigits(n: nat, rest: string)
    requires n < 100 && StartsDigitless(rest)
    ensures ScanInt(TwoDigits(n) + rest) == Scanned(n, rest)
  {
    var s := TwoDigits(n) + rest;
    assert s[1..] == [Digit(n % 10)] + rest && s[1..][1..] == rest;
    assert Digits(s, 0) == Digits(s[1..], n / 10) == Digits(rest, n / 10 * 10 + n % 10);
  }

  lemma SpaceThenInt(s: string)
    ensures ScanInt(" " + s) == ScanInt(s)
  {
    assert (" " + s)[1..] == s;
  }

  lemma OneSpace(s: string)
    requires s != "" && !IsSpace(s[0])
    ensures SkipSpaces(" " + s) == s && SkipSpaces(s) == s
  {
    assert (" " + s)[1..] == s;
  }

  lemma ClockReads(t: DateTime)
    requires Valid(t)
    ensures ParseClock(Clock(t)) == Scanned((t.hour as int, t.minute as int, t.second as int), " GMT")
  {
    var c := TwoDigits(t.second) + " GMT";
    var b := TwoDigits(t.minute) + (":" + c);
    ScanTwoDigits(t.hour, ":" + b);
    ScanTwoDigits(t.minute, ":" + c);
    ScanTwoDigits(t.second, " GMT");
    assert (":" + b)[1..] == b && (":" + c)[1..] == c;
  }

  lemma MonthReads(m: nat)
    requires 1 <= m <= 12
    ensures MonthIndex(MONTHS[m - 1], 0) == m - 1
  {
    var mon := MONTHS[m - 1];
    forall i | 0 <= i < m - 1
      ensures !Names(mon, i)
    {
      MonthsDiffer(m - 1, i);
    }
    IndexSkips(mon, 0, m - 1);
    IndexFound(mon, m - 1);
  }

  lemma MonthsDiffer(m: nat, i: nat)
    requires i < m < 12
    ensures !MonthEq(MONTHS[m], MONTHS[i])
  {
    var a, b := MONTHS[m], MONTHS[i];
    assert ToLower(a[0]) != ToLower(b[0]) || ToLower(a[1]) != ToLower(b[1]) || ToLower(a[2]) != ToLower(b[2]);
  }

  lemma WordReads(w: string, rest: string)
    requires |w| == 3 && IsLetter(w[0]) && IsLetter(w[1]) && IsLetter(w[2])
    ensures ScanWord(w + rest) == Scanned(w, rest)
  {
    assert (w + rest)[..3] == w && (w + rest)[3..] == rest;
  }

  lemma NamedDay(d: nat, w: string, year: int, clock: string)
    requires d < 100 && |w| == 3 && IsLetter(w[0]) && IsLetter(w[1]) && IsLetter(w[2])
    requires clock != "" && IsDigit(clock[0])
    ensures ParseDay(TwoDigits(d) + (" " + (w + (" " + (Signed(year) + (" " + clock))))))
         == Scanned((d as int, w, year), clock)
  {
    var y := Signed(year) + (" " + clock);
    var m := w + (" " + y);
    ScanTwoDigits(d, " " + m);
    assert m[0] == w[0];
    OneSpace(m);
    WordReads(w, " " + y);
    SpaceThenInt(y);
    ScanSigned(year, " " + clock);
    OneSpace(clock);
  }

  lemma DayReads(d: Date, clock: string)
    requires ValidDate(d) && clock != "" && IsDigit(clock[0])
    ensures ParseDay(TwoDigits(d.day) + (" " + (MONTHS[d.month - 1] + (" " + (Signed(d.year) + (" " + clock))))))
         == Scanned((d.day as int, MONTHS[d.month - 1], d.year), clock)
  {
    NamedDay(d.day, MONTHS[d.month - 1], d.year, clock);
  }

  lemma StartsWithDigit(t: DateTime)
    requires Valid(t)
    ensures Clock(t) != "" && IsDigit(Clock(t)[0])
    ensures DayAndClock(t) != "" && IsDigit(DayAndClock(t)[0])
  {
    assert IsDigit(Clock(t)[0]) && IsDigit(DayAndClock(t)[0]);
  }

  lemma FieldsRead(t: DateTime)
    requires Valid(t)
    ensures DayAndClock(t) != "" && !IsSpace(DayAndClock(t)[0])
    ensures ParseFields(DayAndClock(t))
         == Fields(t.date.year, t.date.month, t.date.day, t.hour, t.minute, t.second)
  {
    hide ParseDay, ParseClock, MonthIndex, TwoDigits, Signed;
    StartsWithDigit(t);
    DayReads(t.date, Clock(t));
    ClockReads(t);
    MonthReads(t.date.month);
  }

  lemma WeekdayReads(day: string, rest: string)
    requires day in DAYS && rest != "" && !IsSpace(rest[0])
    ensures Parse(day + (", " + rest)) == ParseFields(rest)
  {
    WordReads(day, ", " + rest);
    assert (", " + rest)[1..] == " " + rest;
    OneSpace(rest);
  }

  /** A printed time reads back as the fields of its date, and so as itself. */
  lemma PrintedDateReadsBack(time: int)
    ensures var p := Parse(Print(time));
      && p.Fields? && 1 <= p.month <= 12 && 0 <= p.day && 0 <= p.hour && 0 <= p.minute && 0 <= p.second
      && TmToTime(DateTime(Date(p.year, p.month, p.day), p.hour, p.minute, p.second)) == time
  {
    FieldsRead(Gmtime(time));
    WeekdayReads(DAYS[(time / 86400 + 4) % 7], DayAndClock(Gmtime(time)));
    SecondsInvert(time);
  }

  // ----- on literal texts -------------------------------------------------------------

  /** The classes of the C locale that sscanf goes by. */
  lemma Classes(c: char)
    ensures IsDigit(c) <==> c in DIGITS
    ensures IsLetter(c) <==> c in SMALL || c in CAPITAL
    ensures IsSpace(c) <==> c in " \t\n\r" || c as int == 11 || c as int == 12
  {
    InDigits(c);
    InSmall(c);
    InCapital(c);
  }

  /** The twelve names. */
  lemma MonthNames()
    ensures MONTHS[0] == "Jan" && MONTHS[1] == "Feb" && MONTHS[2] == "Mar" && MONTHS[3] == "Apr"
    ensures MONTHS[4] == "May" && MONTHS[5] == "Jun" && MONTHS[6] == "Jul" && MONTHS[7] == "Aug"
    ensures MONTHS[8] == "Sep" && MONTHS[9] == "Oct" && MONTHS[10] == "Nov" && MONTHS[11] == "Dec"
  {
  }

  /** The seven days, Sunday first. */
  lemma DayNames()
    ensures DAYS[0] == "Sun" && DAYS[1] == "Mon" && DAYS[2] == "Tue" && DAYS[3] == "Wed"
    ensures DAYS[4] == "Thu" && DAYS[5] == "Fri" && DAYS[6] == "Sat"
  {
  }

  /** The same character, or the small and the capital form of one letter. */
  predicate SameLetter(a: char, b: char)
  {
    a == b || exists v :: 0 <= v < 26 && LetterPair(a, b, v)
  }

  predicate LetterPair(a: char, b: char, v: nat)
    requires v < 26
  {
    (a == SMALL[v] && b == CAPITAL[v]) || (a == CAPITAL[v] && b == SMALL[v])
  }

  /** The name of that month in some mix of cases. */
  predicate InSomeCase(w: string, m: nat)
    requires m < 12
  {
    |w| == 3 && forall k :: 0 <= k < 3 ==> SameLetter(w[k], MONTHS[m][k])
  }

  lemma LowerIff(a: char, b: char)
    ensures ToLower(a) == ToLower(b) <==> SameLetter(a, b)
  {
    if ToLower(a) == ToLower(b) && a != b {
      var v := ToLower(a) as int - 'a' as int;
      LetterAt(v);
      assert LetterPair(a, b, v);
    } else if SameLetter(a, b) && a != b {
      var v :| 0 <= v < 26 && LetterPair(a, b, v);
      LetterAt(v);
    }
  }

  lemma NamesIff(w: string, m: nat)
    requires m < 12 && |w| == 3
    ensures Names(w, m) <==> InSomeCase(w, m)
  {
    hide SameLetter;
    forall k | 0 <= k < 3
      ensures ToLower(w[k]) == ToLower(MONTHS[m][k]) <==> SameLetter(w[k], MONTHS[m][k])
    {
      LowerIff(w[k], MONTHS[m][k]);
    }
  }

  /** A word of three letters is read as a month exactly when it is its name in any mix of cases. */
  lemma AnyCase(w: string, m: nat)
    requires m < 12 && |w| == 3
    ensures MonthIndex(w, 0) == m <==> InSomeCase(w, m)
  {
    hide MonthIndex, InSomeCase;
    NamesIff(w, m);
    if Names(w, m) {
      forall i | 0 <= i < m
        ensures !Names(w, i)
      {
        MonthsDiffer(m, i);
      }
      IndexSkips(w, 0, m);
      IndexFound(w, m);
    } else if MonthIndex(w, 0) == m {
      IndexNames(w, 0);
    }
  }

  lemma {:induction false} IndexNames(w: string, i: nat)
    requires i <= 12
    ensures var m := MonthIndex(w, i); m < 12 && (0 <= m ==> Names(w, m))
    decreases 12 - i
  {
    if i < 12 && !Names(w, i) {
      IndexNames(w, i + 1);
    }
  }

  /** The example of section 7.1.1.1 of RFC 7231: Sun, 06 Nov 1994 08:49:37 GMT. */
  function Standard(): string
  {
    "Sun" + (", " + ("06" + (" " + ("Nov" + (" " + ("1994" + (" "
      + ("08" + (":" + ("49" + (":" + ("37" + " GMT"))))))))))))
  }

  /** It is the seconds it should be, both ways. */
  lemma StandardDate()
    ensures Print(784111777) == Standard() && Parse(Standard()) == Fields(1994, 11, 6, 8, 49, 37)
  {
    var t := DateTime(Date(1994, 11, 6), 8, 49, 37);
    hide Parse, Print, DayAndClock, Standard, TmToTime, Gmtime;
    StandardSeconds(t);
    StandardText(t);
    PrintedAs(784111777, t, "Sun", Standard());
  }

  /** A time that is known to be a date is printed and read as that. */
  lemma PrintedAs(time: int, t: DateTime, day: string, text: string)
    requires Valid(t) && Gmtime(time) == t && DAYS[(time / 86400 + 4) % 7] == day
    requires text == day + (", " + DayAndClock(t))
    ensures Print(time) == text
    ensures Parse(text) == Fields(t.date.year, t.date.month, t.date.day, t.hour, t.minute, t.second)
  {
    FieldsRead(t);
    WeekdayReads(day, DayAndClock(t));
  }

  lemma StandardSeconds(t: DateTime)
    requires t == DateTime(Date(1994, 11, 6), 8, 49, 37)
    ensures Valid(t) && Gmtime(784111777) == t && DAYS[(784111777 / 86400 + 4) % 7] == "Sun"
  {
    hide TmToTime, Gmtime;
    StandardTime(t);
    GmtimeInverts(0, t);
  }

  lemma StandardTime(t: DateTime)
    requires t == DateTime(Date(1994, 11, 6), 8, 49, 37)
    ensures TmToTime(t) == 784111777
  {
    hide DaysOf;
    StandardDays(t.date);
  }

  lemma StandardDays(d: Date)
    requires d == Date(1994, 11, 6)
    ensures DaysOf(d) == 9075
  {
  }

  lemma StandardText(t: DateTime)
    requires Valid(t) && t == DateTime(Date(1994, 11, 6), 8, 49, 37)
    ensures Standard() == "Sun" + (", " + DayAndClock(t))
  {
    StandardNumbers();
    assert MONTHS[10] == "Nov";
    hide TwoDigits, Signed;
  }

  lemma StandardNumbers()
    ensures TwoDigits(6) == "06" && TwoDigits(8) == "08" && TwoDigits(49) == "49" && TwoDigits(37) == "37"
    ensures Signed(1994) == "1994"
  {
    assert Decimal(19) == "1" + "9" == "19";
    assert Decimal(199) == Decimal(19) + "9" == "199";
    assert Decimal(1994) == Decimal(199) + "4" == "1994";
  }

  /** A month that has none of the twelve names makes the whole date bad, and so does anything but a date. */
  lemma UnknownMonth(d: nat, w: string, y: int, clock: string)
    requires d < 100 && |w| == 3 && IsLetter(w[0]) && IsLetter(w[1]) && IsLetter(w[2])
    requires clock != "" && IsDigit(clock[0]) && forall j :: 0 <= j < 12 ==> !InSomeCase(w, j)
    ensures ParseFields(TwoDigits(d) + (" " + (w + (" " + (Signed(y) + (" " + clock)))))) == Bad && Parse("") == Bad
  {
    NamedDay(d, w, y, clock);
    forall j | 0 <= j < 12
      ensures !Names(w, j)
    {
      NamesIff(w, j);
    }
    hide Names, InSomeCase;
    IndexSkips(w, 0, 12);
  }

  /** The first of January 1970 was a Thursday. */
  lemma EpochDay()
    ensures Print(0)[..3] == "Thu"
  {
  }
}
