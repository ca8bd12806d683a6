/**
 * A restaurant's settings: the validation of a search request and of the
 * owner's settings form (phone number, flags, opening hours), reading the
 * flags and the opening hours (filling in what is missing), and writing them.
 */
module RestaurantSettings {
  import opened Common
  import opened Store

  // -------------------------------------------------------------- search

  /** `RestaurantSearch`; coordinates are decimal degrees. */
  datatype Search = Search(
    name: string,
    days: set<int>,
    latitude: real,
    longitude: real,
    timeStart: int,
    timeEnd: int,
    guests: int,
    distance: int)

  /** `RestaurantSearch.is_data_valid`: the checks in the order the source
      makes them, each refusing on its own. */
  function SearchValid(q: Search): (ok: bool)
    ensures ok <==>
      |q.name| <= 64
      && (forall d :: d in q.days ==> 0 <= d <= 6)
      && -90.0 <= q.latitude <= 90.0 && -180.0 <= q.longitude < 180.0
      && 0 <= q.timeStart <= q.timeEnd <= 24
      && 0 <= q.guests <= 8
      && 1 <= q.distance <= 15
  {
    if |q.name| > 64 then false
    else if exists d :: d in q.days && (d > 6 || d < 0) then false
    else if q.latitude > 90.0 || q.latitude < -90.0 || q.longitude >= 180.0 || q.longitude < -180.0 then false
    else if q.timeStart < 0 || q.timeEnd > 24 || q.timeEnd < q.timeStart then false
    else if q.guests < 0 || q.guests > 8 then false
    else if q.distance < 1 || q.distance > 15 then false
    else true
  }

  // ------------------------------------------------------------ the form

  predicate IsDigit(c: char)
  {
    '0' <= c <= '9'
  }

  /** A phone number: 5 to 18 characters, a leading '+', digits after it. */
  function PhoneValid(p: string): (ok: bool)
    ensures ok ==> |p| >= 5 && p[0] == '+'
  {
    if |p| < 5 || |p| > 18 || p[0] != '+' then false
    else forall i :: 1 <= i < |p| ==> IsDigit(p[i])
  }

  /** One submitted flag: the flag's id and whether it is switched on. */
  datatype FlagChoice = FlagChoice(id: int, on: bool)

  predicate SortedById(s: seq<FlagChoice>)
  {
    forall i, j :: 0 <= i < j < |s| ==> s[i].id <= s[j].id
  }

  /** The choices naming flag `k`, in their order in `s`. */
  function WithId(s: seq<FlagChoice>, k: int): seq<FlagChoice>
  {
    if s == [] then []
    else (if s[0].id == k then [s[0]] else []) + WithId(s[1..], k)
  }

  /** Inserts a choice into a list sorted by id, before the equal ids. */
  function InsertById(x: FlagChoice, s: seq<FlagChoice>): (r: seq<FlagChoice>)
    requires SortedById(s)
    ensures |r| == |s| + 1
    ensures multiset(r) == multiset(s) + multiset{x}
    ensures SortedById(r)
    ensures forall k :: WithId(r, k) == (if x.id == k then [x] else []) + WithId(s, k)
  {
    if s == [] || x.id <= s[0].id then
      WithIdCons(x, s);
      [x] + s
    else
      var rest := InsertById(x, s[1..]);
      InsertAfterHead(x, s, rest);
      WithIdAfterHead(x, s, rest);
      [s[0]] + rest
  }

  lemma WithIdCons(x: FlagChoice, s: seq<FlagChoice>)
    ensures forall k :: WithId([x] + s, k) == (if x.id == k then [x] else []) + WithId(s, k)
  {
    forall k
      ensures WithId([x] + s, k) == (if x.id == k then [x] else []) + WithId(s, k)
    {
      WithIdConsFor(x, s, k);
    }
  }

  lemma WithIdConsFor(x: FlagChoice, s: seq<FlagChoice>, k: int)
    ensures WithId([x] + s, k) == (if x.id == k then [x] else []) + WithId(s, k)
  {
    assert ([x] + s)[1..] == s;
  }

  /** The head of a sorted list has a smaller id than an inserted choice that
      goes after it, so it never names the inserted choice's flag. */
  lemma WithIdAfterHead(x: FlagChoice, s: seq<FlagChoice>, rest: seq<FlagChoice>)
    requires s != [] && s[0].id < x.id
    requires forall k :: WithId(rest, k) == (if x.id == k then [x] else []) + WithId(s[1..], k)
    ensures forall k :: WithId([s[0]] + rest, k) == (if x.id == k then [x] else []) + WithId(s, k)
  {
    forall k
      ensures WithId([s[0]] + rest, k) == (if x.id == k then [x] else []) + WithId(s, k)
    {
      WithIdAfterHeadFor(x, s, rest, k);
    }
  }

  lemma WithIdAfterHeadFor(x: FlagChoice, s: seq<FlagChoice>, rest: seq<FlagChoice>, k: int)
    requires s != [] && s[0].id < x.id
    requires WithId(rest, k) == (if x.id == k then [x] else []) + WithId(s[1..], k)
    ensures WithId([s[0]] + rest, k) == (if x.id == k then [x] else []) + WithId(s, k)
  {
    WithIdConsFor(s[0], rest, k);
    var head := if s[0].id == k then [s[0]] else [];
    assert WithId(s, k) == head + WithId(s[1..], k);
    if x.id == k {
      assert head == [];
    }
  }

  /** Putting the head back in front of the insertion into the tail keeps
      the order and the contents. */
  lemma InsertAfterHead(x: FlagChoice, s: seq<FlagChoice>, rest: seq<FlagChoice>)
    requires SortedById(s) && s != [] && s[0].id < x.id
    requires multiset(rest) == multiset(s[1..]) + multiset{x} && SortedById(rest)
    ensures multiset([s[0]] + rest) == multiset(s) + multiset{x}
    ensures SortedById([s[0]] + rest)
  {
    assert s == [s[0]] + s[1..];
    forall k | 0 <= k < |rest|
      ensures s[0].id <= rest[k].id
    {
      assert rest[k] in multiset(rest);
      if rest[k] != x {
        assert rest[k] in multiset(s[1..]);
        var m :| 0 <= m < |s[1..]| && s[1..][m] == rest[k];
        assert s[m + 1] == rest[k];
      }
    }
    var r := [s[0]] + rest;
    forall i, j | 0 <= i < j < |r|
      ensures r[i].id <= r[j].id
    {
      if i > 0 {
        assert r[i] == rest[i - 1] && r[j] == rest[j - 1];
      } else {
        assert r[j] == rest[j - 1];
      }
    }
  }

  /** `flags.sort(key=lambda x: x.id)`: the same choices, by increasing id,
      and, the sort being stable, the choices naming one flag in the order
      they were submitted. */
  function SortById(fs: seq<FlagChoice>): (r: seq<FlagChoice>)
    ensures multiset(r) == multiset(fs) && |r| == |fs|
    ensures SortedById(r)
    ensures forall k :: WithId(r, k) == WithId(fs, k)
  {
    if fs == [] then []
    else
      assert fs == [fs[0]] + fs[1..];
      var r := InsertById(fs[0], SortById(fs[1..]));
      assert |r| == |multiset(r)|;
      r
  }

  /** Flags that already come in id order are left exactly as submitted. */
  lemma {:induction false} SortKeepsSorted(fs: seq<FlagChoice>)
    requires SortedById(fs)
    ensures SortById(fs) == fs
  {
    if fs != [] {
      SortKeepsSorted(fs[1..]);
      assert fs == [fs[0]] + fs[1..];
    }
  }

  /** Two choices for flag 1, off then on: the stable sort keeps them in that
      order, so the third choice (on) is checked against an unset first
      one. */
  lemma RepeatedIdKeepsSubmittedOrder()
    ensures var fs := [FlagChoice(1, false), FlagChoice(1, true), FlagChoice(3, true), FlagChoice(4, false)];
      SortById(fs) == fs && FlagsCheck(SortById(fs)) == Ok(StatusNeedsPlanError)
  {
    var fs := [FlagChoice(1, false), FlagChoice(1, true), FlagChoice(3, true), FlagChoice(4, false)];
    assert SortedById(fs);
    SortKeepsSorted(fs);
  }

  const PhoneError := "Niewłaściwy numer telefonu"
  const EmailError := "Niewłaściwy adres email"
  const FlagCountError := "Niepoprawne ustawienia checkboxów"
  const StatusNeedsPlanError := "Nieprawidłowe ustawienia restauracji: by klient mógł podejrzeć status stolika, trzeba włączyć podgląd sali"
  const BookingNeedsViewError := "Niepoprawne ustawienia restauracji: by rezerwacje stolików przez klientów były możliwe, trzeba włączyć podgląd statusów stolika oraz sali lub obłożenie restauracji"
  const DayCountError := "Ustawienia godzin otwarcia muszą obejmować wszystkie dni"
  const DayError := "Niepoprawny dzień otwarcia"
  const ClosedWithTimesError := "Niepoprawne ustawienia godzin otwarcia: by ustalić dzień zamknięty, należy usunąć godziny otwarcia"
  const EmptyTimesError := "Godzina otwarcia lub zamknięcia nie może być pusta"
  const FormatError := "Godziny otwarcia muszą być w formacie HH:MM"
  const OrderError := "Godzina otwarcia musi być wcześniejsza niż godzina zamknięcia"

  /** The flag rules on the choices sorted by id. The source indexes the
      third and the fourth choice without checking that they exist, so fewer
      than three choices, or three that pass the first rule, end in an
      unhandled error. `Ok("")` lets validation go on. */
  function FlagsCheck(fs: seq<FlagChoice>): (r: Reply<string>)
    ensures r == Ok("") <==>
      |fs| == 4 && (fs[2].on ==> fs[0].on) && (fs[3].on ==> fs[0].on || fs[1].on || fs[2].on)
    ensures r == Crash <==> 0 < |fs| < 3 || (|fs| == 3 && !(fs[2].on && !fs[0].on))
  {
    if |fs| > 4 || |fs| <= 0 then Ok(FlagCountError)
    else if |fs| < 3 then Crash
    else if fs[2].on && !fs[0].on then Ok(StatusNeedsPlanError)
    else if |fs| < 4 then Crash
    else if fs[3].on && !fs[1].on && (!fs[2].on && !fs[0].on) then Ok(BookingNeedsViewError)
    else Ok("")
  }

  /** One day of the submitted opening hours, times as typed ("" for none). */
  datatype HourText = HourText(open: string, close: string, temporary: bool, closed: bool)

  /** `[01][0-9]|2[0-3]` with the optional leading ':' the pattern's
      `(:?` admits before the first alternative. */
  predicate HourPart(s: string)
  {
    (|s| == 2 && '0' <= s[0] <= '1' && IsDigit(s[1]))
    || (|s| == 3 && s[0] == ':' && '0' <= s[1] <= '1' && IsDigit(s[2]))
    || (|s| == 2 && s[0] == '2' && '0' <= s[1] <= '3')
  }

  /** The pattern without its anchors: hour part, ':', `[0-5][0-9]`. */
  predicate TimeBody(s: string)
  {
    |s| >= 3 && HourPart(s[..|s| - 3]) && s[|s| - 3] == ':' && '0' <= s[|s| - 2] <= '5' && IsDigit(s[|s| - 1])
  }

  /** `re.search("^(:?[01][0-9]|2[0-3]):[0-5][0-9]$", s)` succeeds; `$` also
      matches before a final newline. */
  predicate TimeFormatOk(s: string)
  {
    TimeBody(s) || (|s| >= 1 && s[|s| - 1] == '\n' && TimeBody(s[..|s| - 1]))
  }

  /** One day's checks. `stopAtOpen` is the source's `if not hour.closed:
      return ""`: an open day ends validation, with success, before its times
      are checked; only days before it, all closed, reach the format check. */
  function DayCheck(day: int, h: HourText, stopAtOpen: bool): (r: Option<string>)
  {
    if day < 0 || day > 6 then Some(DayError)
    else if h.closed && h.open != "" && h.close != "" then Some(ClosedWithTimesError)
    else if !h.closed && h.open == "" && h.close == "" then Some(EmptyTimesError)
    else if stopAtOpen && !h.closed then Some("")
    else if stopAtOpen || !h.closed then
      if !TimeFormatOk(h.open) || !TimeFormatOk(h.close) then Some(FormatError)
      else if !TextLess(h.open, h.close) then Some(OrderError)
      else None
    else None
  }

  /** The days in the order the form lists them; the first verdict wins, and
      "" means valid. */
  function DaysCheck(hs: seq<(int, HourText)>, stopAtOpen: bool): string
  {
    if hs == [] then ""
    else
      match DayCheck(hs[0].0, hs[0].1, stopAtOpen)
      case Some(verdict) => verdict
      case None => DaysCheck(hs[1..], stopAtOpen)
  }

  /** The opening hours have seven days, and their days' checks pass. */
  function HoursCheck(hs: seq<(int, HourText)>, stopAtOpen: bool): string
  {
    if |hs| != 7 then DayCountError else DaysCheck(hs, stopAtOpen)
  }

  /** The submitted settings form. The e-mail address is checked by a library;
      `emailValid` is its verdict. */
  datatype InfoForm = InfoForm(
    phone: string,
    emailValid: bool,
    lengthMinutes: int,
    hours: seq<(int, HourText)>,
    flags: seq<FlagChoice>)

  /** The first listed day is a weekday, open, with at least one time: the
      only hours the check as written accepts. */
  predicate FirstDayOpens(hs: seq<(int, HourText)>)
  {
    hs != [] && 0 <= hs[0].0 <= 6 && !hs[0].1.closed && (hs[0].1.open != "" || hs[0].1.close != "")
  }

  /** `UpdateRestaurantInfo.isDataValid` as written: the first error message,
      "" when the form is accepted. The form is accepted exactly when the
      phone, the e-mail, the sorted flags and the number of days pass and the
      first listed day opens; it crashes exactly when the flag rules index a
      missing choice. */
  function InfoCheck(info: InfoForm): (r: Reply<string>)
    ensures r == Ok("") <==>
      PhoneValid(info.phone) && info.emailValid && FlagsCheck(SortById(info.flags)) == Ok("")
      && |info.hours| == 7 && FirstDayOpens(info.hours)
    ensures r == Crash <==> PhoneValid(info.phone) && info.emailValid && FlagsCheck(SortById(info.flags)) == Crash
  {
    if !PhoneValid(info.phone) then Ok(PhoneError)
    else if !info.emailValid then Ok(EmailError)
    else
      var flags := FlagsCheck(SortById(info.flags));
      if flags != Ok("") then flags
      else
        FirstDayDecides(info.hours);
        Ok(HoursCheck(info.hours, true))
  }

  /** The same checks with every day checked: closed days skip the time
      checks, open days get them. The form is accepted exactly when the
      phone, the e-mail, the sorted flags and the number of days pass and
      every day is accepted on its own. */
  function InfoCheckAllDays(info: InfoForm): (r: Reply<string>)
    ensures r == Ok("") <==>
      PhoneValid(info.phone) && info.emailValid && FlagsCheck(SortById(info.flags)) == Ok("")
      && |info.hours| == 7 && forall i :: 0 <= i < |info.hours| ==> DayAccepted(info.hours[i].0, info.hours[i].1)
    ensures r == Crash <==> PhoneValid(info.phone) && info.emailValid && FlagsCheck(SortById(info.flags)) == Crash
  {
    if !PhoneValid(info.phone) then Ok(PhoneError)
    else if !info.emailValid then Ok(EmailError)
    else
      var flags := FlagsCheck(SortById(info.flags));
      if flags != Ok("") then flags
      else
        AllDaysCheckIff(info.hours);
        Ok(HoursCheck(info.hours, false))
  }

  /** A day the corrected check accepts. */
  predicate DayAccepted(day: int, h: HourText)
  {
    0 <= day <= 6
    && (h.closed ==> h.open == "" || h.close == "")
    && (!h.closed ==> TimeFormatOk(h.open) && TimeFormatOk(h.close) && TextLess(h.open, h.close))
  }

  /** With every day checked, the hours pass exactly when every day is in
      range, no closed day has both times, and every open day has two
      well-formed times, opening first. */
  lemma {:induction false} AllDaysCheckIff(hs: seq<(int, HourText)>)
    ensures DaysCheck(hs, false) == "" <==> forall i :: 0 <= i < |hs| ==> DayAccepted(hs[i].0, hs[i].1)
  {
    if hs != [] {
      AllDaysCheckIff(hs[1..]);
      if DayCheck(hs[0].0, hs[0].1, false).None? {
        forall i | 1 <= i < |hs|
          ensures hs[i] == hs[1..][i - 1]
        {
        }
      }
    }
  }

  /** As written, only the first listed day decides: the hours pass exactly
      when there are none or the first day opens. */
  lemma FirstDayDecides(hs: seq<(int, HourText)>)
    ensures DaysCheck(hs, true) == "" <==> hs == [] || FirstDayOpens(hs)
  {
    assert !TimeBody("");
  }

  /** As written, a closed day listed first always fails, whatever its day
      number: a closed day has at most one time, and "" does not match the
      pattern. */
  lemma ClosedFirstDayRejected(day: int, h: HourText, rest: seq<(int, HourText)>)
    requires h.closed
    ensures DaysCheck([(day, h)] + rest, true) != ""
  {
    assert !TimeBody("");
  }

  /** ... and an open first day ends the checks, whatever the other days
      hold: a day out of range or a malformed time passes. */
  lemma OpenFirstDayAcceptsAnything(day: int, h: HourText, rest: seq<(int, HourText)>)
    requires 0 <= day <= 6 && !h.closed && (h.open != "" || h.close != "")
    ensures DaysCheck([(day, h)] + rest, true) == ""
  {
  }

  /** The two cases together, on a concrete week: a restaurant closed on
      Mondays cannot save its settings, while a week whose Tuesday is numbered
      9 is accepted. The corrected check does the opposite. */
  lemma ClosedMondayRejected()
    ensures var open := HourText("10:00", "22:00", false, false);
            var shut := HourText("", "", false, true);
            var week := [(0, shut), (1, open), (2, open), (3, open), (4, open), (5, open), (6, open)];
            var odd := [(0, open), (9, open), (2, open), (3, open), (4, open), (5, open), (6, open)];
            HoursCheck(week, true) == FormatError && HoursCheck(week, false) == ""
            && HoursCheck(odd, true) == "" && HoursCheck(odd, false) == DayError
  {
    var open := HourText("10:00", "22:00", false, false);
    var shut := HourText("", "", false, true);
    assert TimeBody("10:00") by {
      assert "10:00"[..2] == "10";
    }
    assert TimeBody("22:00") by {
      assert "22:00"[..2] == "22";
    }
    assert TextLess("10:00", "22:00");
    assert !TimeBody("");
    var week := [(0, shut), (1, open), (2, open), (3, open), (4, open), (5, open), (6, open)];
    AllDaysCheckIff(week);
    var odd := [(0, open), (9, open), (2, open), (3, open), (4, open), (5, open), (6, open)];
    assert odd[1..][0] == (9, open);
  }

  // --------------------------------------------------- times of day as text

  function DigitChar(n: int): (c: char)
    requires 0 <= n < 10
    ensures c as int == '0' as int + n
  {
    ['0', '1', '2', '3', '4', '5', '6', '7', '8', '9'][n]
  }

  /** `strftime("%H:%M")`. */
  function ClockText(m: Clock): (s: string)
    ensures |s| == 5
  {
    var h := m / 60;
    var mm := m % 60;
    [DigitChar(h / 10), DigitChar(h % 10), ':', DigitChar(mm / 10), DigitChar(mm % 10)]
  }

  function DigitValue(c: char): int
  {
    c as int - '0' as int
  }

  /** Reads "HH:MM" back as minutes after midnight. */
  function ClockValue(s: string): int
    requires |s| == 5
  {
    (DigitValue(s[0]) * 10 + DigitValue(s[1])) * 60 + DigitValue(s[3]) * 10 + DigitValue(s[4])
  }

  lemma DigitRoundTrip(n: int)
    requires 0 <= n < 10
    ensures DigitValue(DigitChar(n)) == n && IsDigit(DigitChar(n))
  {
  }

  /** The hours a restaurant reads back are well-formed for the form: the
      text matches the validation pattern and reads back as the same time. */
  lemma ClockTextRoundTrip(m: Clock)
    ensures TimeFormatOk(ClockText(m))
    ensures ClockValue(ClockText(m)) == m
  {
    var h := m / 60;
    var mm := m % 60;
    DigitRoundTrip(h / 10);
    DigitRoundTrip(h % 10);
    DigitRoundTrip(mm / 10);
    DigitRoundTrip(mm % 10);
    var s := ClockText(m);
    assert s[..2] == [DigitChar(h / 10), DigitChar(h % 10)];
    assert TimeBody(s);
  }

  /** `TextLess` on two "HH:MM" texts: the first differing digit decides. */
  lemma TextLessOfClockTexts(s: string, t: string)
    requires |s| == 5 && |t| == 5 && s[2] == t[2]
    ensures TextLess(s, t) <==>
      (s[0] < t[0] || (s[0] == t[0] && (s[1] < t[1] || (s[1] == t[1] && (s[3] < t[3] || (s[3] == t[3] && s[4] < t[4]))))))
  {
    var s1, t1 := s[1..], t[1..];
    var s2, t2 := s1[1..], t1[1..];
    var s3, t3 := s2[1..], t2[1..];
    var s4, t4 := s3[1..], t3[1..];
    assert s4[1..] == [] && t4[1..] == [];
    assert TextLess(s4, t4) <==> s[4] < t[4];
    assert TextLess(s3, t3) <==> s[3] < t[3] || (s[3] == t[3] && TextLess(s4, t4));
    assert TextLess(s2, t2) <==> TextLess(s3, t3);
    assert TextLess(s1, t1) <==> s[1] < t[1] || (s[1] == t[1] && TextLess(s2, t2));
  }

  /** The text order of two such times is their order in the day, so the
      form's "opening before closing" check compares the times themselves. */
  lemma ClockTextOrder(a: Clock, b: Clock)
    ensures TextLess(ClockText(a), ClockText(b)) <==> a < b
  {
    TextLessOfClockTexts(ClockText(a), ClockText(b));
    ClockDigits(a);
    ClockDigits(b);
    PlaceValueOrder(a / 60 / 10, a / 60 % 10, a % 60 / 10, a % 60 % 10,
                    b / 60 / 10, b / 60 % 10, b % 60 / 10, b % 60 % 10);
  }

  /** A time of day is the place value of its four "HH:MM" digits. */
  lemma ClockDigits(m: Clock)
    ensures var h, mm := m / 60, m % 60;
      && m == (h / 10) * 600 + (h % 10) * 60 + (mm / 10) * 10 + mm % 10
      && 0 <= h / 10 < 10 && 0 <= h % 10 < 10 && 0 <= mm / 10 < 6 && 0 <= mm % 10 < 10
  {
  }

  /** Comparing the digits of two "HH:MM" times from the left compares the
      times. */
  lemma PlaceValueOrder(a0: int, a1: int, a3: int, a4: int, b0: int, b1: int, b3: int, b4: int)
    requires 0 <= a0 < 10 && 0 <= a1 < 10 && 0 <= a3 < 6 && 0 <= a4 < 10
    requires 0 <= b0 < 10 && 0 <= b1 < 10 && 0 <= b3 < 6 && 0 <= b4 < 10
    ensures (a0 < b0 || (a0 == b0 && (a1 < b1 || (a1 == b1 && (a3 < b3 || (a3 == b3 && a4 < b4))))))
      <==> a0 * 600 + a1 * 60 + a3 * 10 + a4 < b0 * 600 + b1 * 60 + b3 * 10 + b4
  {
  }

  // --------------------------------------------------------------- flags

  /** One flag as the settings page shows it. */
  datatype FlagView = FlagView(id: int, name: string, description: string, on: bool)

  /** The keys of the restaurant's setting rows for one flag. */
  function SettingRows(s: map<int, Setting>, rid: int, f: int): set<int>
  {
    set k | k in s && s[k].restaurant == rid && s[k].flag == f
  }

  /** The flags the restaurant has a setting row for: the keys of the
      dictionary the source builds from its rows. */
  function SetFlags(s: map<int, Setting>, rid: int): set<int>
  {
    set k | k in s && s[k].restaurant == rid :: s[k].flag
  }

  /** The restaurant's value of a flag; of several rows the last one wins, as
      in that dictionary. */
  ghost function SettingOf(s: map<int, Setting>, rid: int, f: int): Option<bool>
  {
    var rows := SettingRows(s, rid, f);
    if rows == {} then None else Some(s[MaxKey(rows)].on)
  }

  function OrTrue(o: Option<bool>): bool
  {
    if o.Some? then o.value else true
  }

  function IdsOf(view: seq<FlagView>): set<int>
  {
    set i | 0 <= i < |view| :: view[i].id
  }

  method LastSetting(s: map<int, Setting>, rid: int, f: int) returns (o: Option<bool>)
    ensures o == SettingOf(s, rid, f)
  {
    var rows := SettingRows(s, rid, f);
    if rows == {} {
      o := None;
    } else {
      var k := FindMax(rows);
      o := Some(s[k].on);
    }
  }

  /** A row added under a key above all others is its flag's last row and
      changes no other flag's rows. */
  lemma SettingAdded(s: map<int, Setting>, k: int, row: Setting, rid: int, g: int)
    requires forall j :: j in s ==> j < k
    ensures SettingRows(s[k := row], rid, g) ==
      SettingRows(s, rid, g) + (if row.restaurant == rid && row.flag == g then {k} else {})
    ensures SettingOf(s[k := row], rid, g) ==
      if row.restaurant == rid && row.flag == g then Some(row.on) else SettingOf(s, rid, g)
  {
    var t := s[k := row];
    assert SettingRows(t, rid, g) ==
      SettingRows(s, rid, g) + (if row.restaurant == rid && row.flag == g then {k} else {});
    if row.restaurant == rid && row.flag == g {
      var m := MaxKey(SettingRows(t, rid, g));
      assert m == k;
    } else if SettingRows(s, rid, g) != {} {
      var m := MaxKey(SettingRows(s, rid, g));
      assert m in s && m != k;
    }
  }

  /** Changing the value of a flag's last row changes that flag's value and
      no row set. */
  lemma SettingChanged(s: map<int, Setting>, f: int, v: bool, rid: int, g: int)
    requires SettingRows(s, rid, f) != {}
    ensures var k := MaxKey(SettingRows(s, rid, f));
      SettingRows(s[k := s[k].(on := v)], rid, g) == SettingRows(s, rid, g)
      && SettingOf(s[k := s[k].(on := v)], rid, g) == if g == f then Some(v) else SettingOf(s, rid, g)
  {
    var k := MaxKey(SettingRows(s, rid, f));
    var t := s[k := s[k].(on := v)];
    assert SettingRows(t, rid, g) == SettingRows(s, rid, g);
    if g != f && SettingRows(s, rid, g) != {} {
      var m := MaxKey(SettingRows(s, rid, g));
      assert m != k;
    }
  }

  /** One flag of `get_restaurant_flags`: its value, and a new row switching
      it on when the restaurant has none. */
  method ReadFlag(before: map<int, Setting>, next: map<int, Setting>, rid: int, f: int)
    returns (on: bool, after: map<int, Setting>)
    requires SettingRows(next, rid, f) == SettingRows(before, rid, f)
    requires forall k :: k in before ==> k in next && next[k] == before[k]
    ensures on == OrTrue(SettingOf(before, rid, f))
    ensures SettingOf(after, rid, f) == Some(on)
    ensures forall g :: g != f ==>
      SettingRows(after, rid, g) == SettingRows(next, rid, g) && SettingOf(after, rid, g) == SettingOf(next, rid, g)
    ensures forall k :: k in next ==> k in after && after[k] == next[k]
    ensures forall k :: k in after && k !in next ==> after[k] == Setting(rid, f, true)
  {
    var found := LastSetting(before, rid, f);
    after := next;
    if found.Some? {
      on := found.value;
      var rows := SettingRows(before, rid, f);
      assert next[MaxKey(rows)] == before[MaxKey(rows)];
    } else {
      on := true;
      var k := FreshKey(next);
      var row := Setting(rid, f, true);
      forall g
        ensures SettingRows(next[k := row], rid, g) ==
          SettingRows(next, rid, g) + (if g == f then {k} else {})
        ensures SettingOf(next[k := row], rid, g) == if g == f then Some(true) else SettingOf(next, rid, g)
      {
        SettingAdded(next, k, row, rid, g);
      }
      after := next[k := row];
    }
  }

  /** The keys of a table in increasing order, the order its rows are read in. */
  method SortedKeys(keys: set<int>) returns (ids: seq<int>)
    ensures forall i, j :: 0 <= i < j < |ids| ==> ids[i] < ids[j]
    ensures forall i :: 0 <= i < |ids| ==> ids[i] in keys
    ensures forall k :: k in keys ==> k in ids
  {
    var remaining := keys;
    ids := [];
    while remaining != {}
      invariant remaining <= keys
      invariant forall i, j :: 0 <= i < j < |ids| ==> ids[i] < ids[j]
      invariant forall i, r :: 0 <= i < |ids| && r in remaining ==> ids[i] < r
      invariant forall i :: 0 <= i < |ids| ==> ids[i] in keys
      invariant forall k :: k in keys ==> k in ids || k in remaining
      decreases remaining
    {
      var m := FindMin(remaining);
      ids := ids + [m];
      remaining := remaining - {m};
    }
  }

  /** After the first `n` flags of `ids`: `view` shows them, and `next`
      stores what it shows, keeps every old row and adds only switched-on rows
      of the restaurant. */
  ghost predicate Shown(flags: map<int, Flag>, before: map<int, Setting>, rid: int, ids: seq<int>,
                        view: seq<FlagView>, next: map<int, Setting>, n: int)
    requires 0 <= n <= |ids| && forall i :: 0 <= i < |ids| ==> ids[i] in flags
  {
    && |view| == n
    && (forall i :: 0 <= i < n ==>
          view[i].id == ids[i]
          && view[i].name == flags[ids[i]].name
          && view[i].description == flags[ids[i]].description
          && view[i].on == OrTrue(SettingOf(before, rid, ids[i])))
    && (forall i :: 0 <= i < n ==> SettingOf(next, rid, ids[i]) == Some(view[i].on))
    && (forall j :: n <= j < |ids| ==> SettingRows(next, rid, ids[j]) == SettingRows(before, rid, ids[j]))
    && (forall k :: k in before ==> k in next && next[k] == before[k])
    && (forall k :: k in next && k !in before ==> next[k].restaurant == rid && next[k].on)
  }

  /** One turn of the loop in `get_restaurant_flags`. */
  method ShowFlag(flags: map<int, Flag>, before: map<int, Setting>, rid: int, ids: seq<int>,
                  view: seq<FlagView>, next: map<int, Setting>, n: int)
    returns (view': seq<FlagView>, next': map<int, Setting>)
    requires 0 <= n < |ids| && forall i :: 0 <= i < |ids| ==> ids[i] in flags
    requires forall i, j :: 0 <= i < j < |ids| ==> ids[i] < ids[j]
    requires Shown(flags, before, rid, ids, view, next, n)
    ensures Shown(flags, before, rid, ids, view', next', n + 1)
  {
    var f := ids[n];
    var on;
    on, next' := ReadFlag(before, next, rid, f);
    view' := view + [FlagView(f, flags[f].name, flags[f].description, on)];
  }

  /** The loop of `get_restaurant_flags` over the flags, by increasing id:
      the page's flags and the setting rows with the added ones. */
  method FlagsView(flags: map<int, Flag>, before: map<int, Setting>, rid: int)
    returns (view: seq<FlagView>, next: map<int, Setting>)
    ensures IdsOf(view) == flags.Keys
    ensures forall i, j :: 0 <= i < j < |view| ==> view[i].id < view[j].id
    ensures forall i :: 0 <= i < |view| ==>
      (view[i].id in flags
      && view[i].name == flags[view[i].id].name
      && view[i].description == flags[view[i].id].description
      && view[i].on == OrTrue(SettingOf(before, rid, view[i].id)))
    ensures forall i :: 0 <= i < |view| ==> SettingOf(next, rid, view[i].id) == Some(view[i].on)
    ensures forall k :: k in before ==> k in next && next[k] == before[k]
    ensures forall k :: k in next && k !in before ==> next[k].restaurant == rid && next[k].on
  {
    var ids := SortedKeys(flags.Keys);
    next := before;
    view := [];
    for n := 0 to |ids|
      invariant Shown(flags, before, rid, ids, view, next, n)
    {
      view, next := ShowFlag(flags, before, rid, ids, view, next, n);
    }
    forall k | k in flags.Keys
      ensures k in IdsOf(view)
    {
      var i :| 0 <= i < |ids| && ids[i] == k;
      assert view[i].id == k;
    }
  }

  /** `get_restaurant_flags`: every flag, by increasing id, with the
      restaurant's value, switched on where the restaurant has none. The rows
      added for those flags are stored only when the restaurant has rows for
      fewer flags than there are flags. */
  method GetRestaurantFlags(db: Session, rid: int) returns (view: seq<FlagView>)
    modifies db`settings
    ensures IdsOf(view) == db.flags.Keys
    ensures forall i, j :: 0 <= i < j < |view| ==> view[i].id < view[j].id
    ensures forall i :: 0 <= i < |view| ==>
      (view[i].id in db.flags
      && view[i].name == db.flags[view[i].id].name
      && view[i].description == db.flags[view[i].id].description
      && view[i].on == OrTrue(SettingOf(old(db.settings), rid, view[i].id)))
    ensures |SetFlags(old(db.settings), rid)| < |db.flags| ==>
      forall i :: 0 <= i < |view| ==> SettingOf(db.settings, rid, view[i].id) == Some(view[i].on)
    ensures |SetFlags(old(db.settings), rid)| >= |db.flags| ==> db.settings == old(db.settings)
    ensures forall k :: k in old(db.settings) ==> k in db.settings && db.settings[k] == old(db.settings)[k]
    ensures forall k :: k in db.settings && k !in old(db.settings) ==> db.settings[k].restaurant == rid && db.settings[k].on
  {
    var next;
    view, next := FlagsView(db.flags, db.settings, rid);
    if |SetFlags(db.settings, rid)| < |db.flags| {
      db.settings := next;
    }
  }

  // ------------------------------------------------------- opening hours

  /** The keys of the restaurant's rows for one weekday. */
  function HoursRows(h: map<int, Hours>, rid: int, d: int): set<int>
  {
    set k | k in h && h[k].restaurant == rid && h[k].day == d
  }

  /** The weekdays the restaurant has rows for: the keys of the source's
      dictionary. */
  function HoursDays(h: map<int, Hours>, rid: int): set<int>
  {
    set k | k in h && h[k].restaurant == rid :: h[k].day
  }

  /** The restaurant's row for a weekday; of several the last one wins. */
  ghost function LastRow(h: map<int, Hours>, rid: int, d: int): Option<Hours>
  {
    var rows := HoursRows(h, rid, d);
    if rows == {} then None else Some(h[MaxKey(rows)])
  }

  /** A stored time as the settings page shows it. */
  function TimeText(t: Option<Clock>): string
  {
    match t
    case None => ""
    case Some(m) => ClockText(m)
  }

  /** The row a day has as the settings page shows it; a day without a row
      shows as closed, with no times. */
  function HourView(row: Option<Hours>): HourText
  {
    match row
    case None => HourText("", "", false, true)
    case Some(r) => HourText(TimeText(r.open), TimeText(r.close), r.temporary, r.closed)
  }

  /** The row added for a weekday without one. */
  function ClosedDay(rid: int, d: int): Hours
  {
    Hours(rid, d, None, None, false, true)
  }

  method LastHours(h: map<int, Hours>, rid: int, d: int) returns (o: Option<Hours>)
    ensures o == LastRow(h, rid, d)
  {
    var rows := HoursRows(h, rid, d);
    if rows == {} {
      o := None;
    } else {
      var k := FindMax(rows);
      o := Some(h[k]);
    }
  }

  /** A row added under a key above all others is its day's last row and
      changes no other day's rows. */
  lemma HoursAdded(h: map<int, Hours>, k: int, row: Hours, rid: int, d: int)
    requires forall j :: j in h ==> j < k
    ensures HoursRows(h[k := row], rid, d) ==
      HoursRows(h, rid, d) + (if row.restaurant == rid && row.day == d then {k} else {})
    ensures LastRow(h[k := row], rid, d) ==
      if row.restaurant == rid && row.day == d then Some(row) else LastRow(h, rid, d)
  {
    var t := h[k := row];
    assert HoursRows(t, rid, d) ==
      HoursRows(h, rid, d) + (if row.restaurant == rid && row.day == d then {k} else {});
    if row.restaurant == rid && row.day == d {
      var m := MaxKey(HoursRows(t, rid, d));
      assert m == k;
    } else if HoursRows(h, rid, d) != {} {
      var m := MaxKey(HoursRows(h, rid, d));
      assert m in h && m != k;
    }
  }

  /** The loop of `get_restaurant_hours` over the seven weekdays. */
  method HoursView(before: map<int, Hours>, rid: int) returns (week: seq<HourText>, next: map<int, Hours>)
    ensures |week| == 7
    ensures forall d :: 0 <= d < 7 ==> week[d] == HourView(LastRow(before, rid, d))
    ensures forall d :: 0 <= d < 7 ==> LastRow(next, rid, d).Some? && HourView(LastRow(next, rid, d)) == week[d]
    ensures forall k :: k in before ==> k in next && next[k] == before[k]
    ensures forall k :: k in next && k !in before ==> next[k].restaurant == rid && next[k].closed
  {
    next := before;
    week := [];
    for d := 0 to 7
      invariant |week| == d
      invariant forall e :: 0 <= e < d ==> week[e] == HourView(LastRow(before, rid, e))
      invariant forall e :: 0 <= e < d ==> LastRow(next, rid, e).Some? && HourView(LastRow(next, rid, e)) == week[e]
      invariant forall e :: d <= e ==> HoursRows(next, rid, e) == HoursRows(before, rid, e)
      invariant forall k :: k in before ==> k in next && next[k] == before[k]
      invariant forall k :: k in next && k !in before ==> next[k].restaurant == rid && next[k].closed
    {
      var row := LastHours(before, rid, d);
      ghost var prev := next;
      if row.None? {
        var k := FreshKey(next);
        forall e
          ensures HoursRows(next[k := ClosedDay(rid, d)], rid, e) ==
            HoursRows(next, rid, e) + (if e == d then {k} else {})
          ensures LastRow(next[k := ClosedDay(rid, d)], rid, e) == if e == d then Some(ClosedDay(rid, d)) else LastRow(next, rid, e)
        {
          HoursAdded(next, k, ClosedDay(rid, d), rid, e);
        }
        next := next[k := ClosedDay(rid, d)];
        assert HourView(Some(ClosedDay(rid, d))) == HourView(row);
      } else {
        var rows := HoursRows(before, rid, d);
        assert HoursRows(next, rid, d) == rows;
        assert next[MaxKey(rows)] == before[MaxKey(rows)];
        assert LastRow(next, rid, d) == row;
      }
      assert forall e :: 0 <= e < d ==> LastRow(next, rid, e) == LastRow(prev, rid, e);
      assert LastRow(next, rid, d).Some? && HourView(LastRow(next, rid, d)) == HourView(row);
      week := week + [HourView(row)];
    }
  }

  /** `get_restaurant_hours`: the seven weekdays, Monday first, each as the
      restaurant's last row for it or, without one, as closed. The rows added
      for the missing days are stored only when the restaurant has rows for
      fewer than seven weekdays. */
  method GetRestaurantHours(db: Session, rid: int) returns (week: seq<HourText>)
    modifies db`hours
    ensures |week| == 7
    ensures forall d :: 0 <= d < 7 ==> week[d] == HourView(LastRow(old(db.hours), rid, d))
    ensures |HoursDays(old(db.hours), rid)| < 7 ==>
      forall d :: 0 <= d < 7 ==> LastRow(db.hours, rid, d).Some? && HourView(LastRow(db.hours, rid, d)) == week[d]
    ensures |HoursDays(old(db.hours), rid)| >= 7 ==> db.hours == old(db.hours)
    ensures forall k :: k in old(db.hours) ==> k in db.hours && db.hours[k] == old(db.hours)[k]
    ensures forall k :: k in db.hours && k !in old(db.hours) ==> db.hours[k].restaurant == rid && db.hours[k].closed
  {
    var next;
    week, next := HoursView(db.hours, rid);
    if |HoursDays(db.hours, rid)| < 7 {
      db.hours := next;
    }
  }

  /** A restaurant with rows for all seven weekdays has a last row for each
      of them, so reading its hours stores nothing, and what the page shows
      is what is stored. */
  lemma {:induction false} FullWeekIsStored(h: map<int, Hours>, rid: int)
    requires forall d :: 0 <= d < 7 ==> HoursRows(h, rid, d) != {}
    ensures |HoursDays(h, rid)| >= 7
    ensures forall d :: 0 <= d < 7 ==> LastRow(h, rid, d).Some?
  {
    var days := HoursDays(h, rid);
    forall d | 0 <= d < 7
      ensures d in days
    {
      EmptyIff(HoursRows(h, rid, d));
      var k :| k in HoursRows(h, rid, d);
    }
    assert {0, 1, 2, 3, 4, 5, 6} <= days;
    assert |{0, 1, 2, 3, 4, 5, 6}| == 7;
    SubsetCard({0, 1, 2, 3, 4, 5, 6}, days);
  }

  lemma SubsetCard(a: set<int>, b: set<int>)
    requires a <= b
    ensures |a| <= |b|
  {
    assert b == a + (b - a);
  }

  // ---------------------------------------------------------- writing flags

  /** The value the submitted choices give a flag: the last choice for it. */
  function ChosenValue(fs: seq<FlagChoice>, f: int): (o: Option<bool>)
    ensures o.None? <==> forall i :: 0 <= i < |fs| ==> fs[i].id != f
    ensures o.Some? ==> exists i :: 0 <= i < |fs| && fs[i].id == f && fs[i].on == o.value
  {
    if fs == [] then None
    else if fs[|fs| - 1].id == f then Some(fs[|fs| - 1].on)
    else
      var o := ChosenValue(fs[..|fs| - 1], f);
      assert forall i :: 0 <= i < |fs| - 1 ==> fs[..|fs| - 1][i] == fs[i];
      o
  }

  /** The value a flag has after the choices are written over `prior`. */
  function Override(chosen: Option<bool>, prior: Option<bool>): Option<bool>
  {
    if chosen.Some? then chosen else prior
  }

  /** One choice of `update_restaurant_flags`: the value goes into the row the
      restaurant had for the flag before the update, if it had one, and into
      a new row otherwise. */
  method WriteFlag(before: map<int, Setting>, next: map<int, Setting>, rid: int, c: FlagChoice)
    returns (after: map<int, Setting>)
    requires SettingRows(before, rid, c.id) != {} ==> SettingRows(next, rid, c.id) == SettingRows(before, rid, c.id)
    ensures SettingOf(after, rid, c.id) == Some(c.on)
    ensures forall g :: g != c.id ==> SettingOf(after, rid, g) == SettingOf(next, rid, g)
    ensures forall g :: SettingRows(before, rid, g) != {} ==> SettingRows(after, rid, g) == SettingRows(next, rid, g)
    ensures forall k :: k in next && next[k].restaurant != rid ==> k in after && after[k] == next[k]
    ensures forall k :: k in next ==> k in after && after[k].restaurant == next[k].restaurant
    ensures forall k :: k in after && k !in next ==> after[k] == Setting(rid, c.id, c.on)
  {
    var rows := SettingRows(before, rid, c.id);
    if rows != {} {
      var k := FindMax(rows);
      assert k == MaxKey(SettingRows(next, rid, c.id));
      forall g
        ensures SettingRows(next[k := next[k].(on := c.on)], rid, g) == SettingRows(next, rid, g)
        ensures SettingOf(next[k := next[k].(on := c.on)], rid, g) == if g == c.id then Some(c.on) else SettingOf(next, rid, g)
      {
        SettingChanged(next, c.id, c.on, rid, g);
      }
      after := next[k := next[k].(on := c.on)];
    } else {
      var k := FreshKey(next);
      var row := Setting(rid, c.id, c.on);
      forall g
        ensures SettingRows(next[k := row], rid, g) ==
          SettingRows(next, rid, g) + (if g == c.id then {k} else {})
        ensures SettingOf(next[k := row], rid, g) == if g == c.id then Some(c.on) else SettingOf(next, rid, g)
      {
        SettingAdded(next, k, row, rid, g);
      }
      SettingAdded(next, k, row, rid, c.id);
      after := next[k := row];
    }
  }

  /** The loop of `update_restaurant_flags` over the choices. */
  method WriteFlags(before: map<int, Setting>, rid: int, fs: seq<FlagChoice>) returns (next: map<int, Setting>)
    ensures forall f :: SettingOf(next, rid, f) == Override(ChosenValue(fs, f), SettingOf(before, rid, f))
    ensures forall k :: k in before && before[k].restaurant != rid ==> k in next && next[k] == before[k]
    ensures forall k :: k in before ==> k in next
    ensures forall k :: k in next && k !in before ==> next[k].restaurant == rid
  {
    next := before;
    for n := 0 to |fs|
      invariant forall f :: SettingOf(next, rid, f) == Override(ChosenValue(fs[..n], f), SettingOf(before, rid, f))
      invariant forall g :: SettingRows(before, rid, g) != {} ==> SettingRows(next, rid, g) == SettingRows(before, rid, g)
      invariant forall k :: k in before && before[k].restaurant != rid ==> k in next && next[k] == before[k]
      invariant forall k :: k in before ==> k in next
      invariant forall k :: k in next && k !in before ==> next[k].restaurant == rid
    {
      next := WriteFlag(before, next, rid, fs[n]);
      assert fs[..n + 1][..n] == fs[..n];
    }
    assert fs[..|fs|] == fs;
  }

  /** A choice the update would insert a row for, naming no flag: the
      row's flag reference has nothing to point to. */
  predicate UnknownFlagChosen(flags: map<int, Flag>, settings: map<int, Setting>, rid: int, fs: seq<FlagChoice>)
  {
    exists i :: 0 <= i < |fs| && fs[i].id !in flags && SettingRows(settings, rid, fs[i].id) == {}
  }

  /** `update_restaurant_flags`: every chosen flag takes the value of its last
      choice; the other flags, and other restaurants' rows, keep theirs. A
      choice for a flag that does not exist and has no row yet is inserted as
      a row whose flag reference fails at the commit: the request ends in an
      unhandled error and nothing is written. */
  method UpdateRestaurantFlags(db: Session, rid: int, fs: seq<FlagChoice>) returns (r: Reply<()>)
    modifies db`settings
    ensures r == Ok(()) || r == Crash
    ensures r == Crash <==> UnknownFlagChosen(db.flags, old(db.settings), rid, fs)
    ensures r == Crash ==> db.settings == old(db.settings)
    ensures r == Ok(()) ==>
      forall f :: SettingOf(db.settings, rid, f) == Override(ChosenValue(fs, f), SettingOf(old(db.settings), rid, f))
    ensures forall k :: k in old(db.settings) && old(db.settings)[k].restaurant != rid ==>
      k in db.settings && db.settings[k] == old(db.settings)[k]
    ensures forall k :: k in db.settings && k !in old(db.settings) ==> db.settings[k].restaurant == rid
  {
    if exists i | 0 <= i < |fs| :: fs[i].id !in db.flags && SettingRows(db.settings, rid, fs[i].id) == {} {
      return Crash;
    }
    db.settings := WriteFlags(db.settings, rid, fs);
    r := Ok(());
  }

  // --------------------------------------------------- writing opening hours

  /** One day of the submitted opening hours as the database receives it: an
      empty time is stored as no time, and the database reads "HH:MM" as a
      time of day. */
  datatype HoursInput = HoursInput(day: int, open: Option<Clock>, close: Option<Clock>, temporary: bool, closed: bool)

  /** The days of the submitted hours are the keys of a dictionary. */
  predicate DistinctDays(es: seq<HoursInput>)
  {
    forall i, j :: 0 <= i < j < |es| ==> es[i].day != es[j].day
  }

  /** An existing row given a day's values; its restaurant and weekday stay. */
  function Written(r: Hours, e: HoursInput): Hours
  {
    r.(open := e.open, close := e.close, temporary := e.temporary, closed := e.closed)
  }

  /** The row added for a day the update finds no row for. */
  function NewHours(rid: int, e: HoursInput): Hours
  {
    Hours(rid, e.day, e.open, e.close, e.temporary, e.closed)
  }

  /** One day of `update_restaurant_opening_hours`: the last of the candidate
      rows takes the day's values or, without candidates, a new row is added
      for the restaurant. */
  ghost function WriteDay(h: map<int, Hours>, candidates: set<int>, rid: int, e: HoursInput): map<int, Hours>
    requires candidates <= h.Keys
  {
    if candidates == {} then h[NextKey(h.Keys) := NewHours(rid, e)]
    else
      var k := MaxKey(candidates);
      h[k := Written(h[k], e)]
  }

  /** The rows of `scope` for a weekday. */
  function ScopeRows(h: map<int, Hours>, scope: set<int>, d: int): set<int>
  {
    set k | k in scope && k in h && h[k].day == d
  }

  /** The rows the source's query returns: it filters on the settings table
      without joining it to the hours table, so it returns every restaurant's
      hours rows when the restaurant has a settings row, and none otherwise. */
  function CrossJoinScope(h: map<int, Hours>, s: map<int, Setting>, rid: int): set<int>
  {
    if SetFlags(s, rid) != {} then h.Keys else {}
  }

  /** The update as written: every day looks for its row among `scope`. */
  ghost function HoursAfter(h: map<int, Hours>, scope: set<int>, rid: int, es: seq<HoursInput>): map<int, Hours>
    decreases |es|
  {
    if es == [] then h
    else HoursAfter(WriteDay(h, ScopeRows(h, scope, es[0].day), rid, es[0]), scope, rid, es[1..])
  }

  /** The update as intended: every day looks for the restaurant's own row. */
  ghost function OwnHoursAfter(h: map<int, Hours>, rid: int, es: seq<HoursInput>): map<int, Hours>
    decreases |es|
  {
    if es == [] then h
    else OwnHoursAfter(WriteDay(h, HoursRows(h, rid, es[0].day), rid, es[0]), rid, es[1..])
  }

  /** The loop of `update_restaurant_opening_hours` over the submitted days. */
  method WriteHours(before: map<int, Hours>, scope: set<int>, rid: int, es: seq<HoursInput>)
    returns (next: map<int, Hours>)
    requires scope <= before.Keys
    ensures next == HoursAfter(before, scope, rid, es)
  {
    next := before;
    for n := 0 to |es|
      invariant scope <= next.Keys
      invariant HoursAfter(next, scope, rid, es[n..]) == HoursAfter(before, scope, rid, es)
    {
      var e := es[n];
      var candidates := ScopeRows(next, scope, e.day);
      ghost var prev := next;
      if candidates == {} {
        var k := FreshKey(next);
        next := next[k := NewHours(rid, e)];
      } else {
        var k := FindMax(candidates);
        next := next[k := Written(next[k], e)];
      }
      assert next == WriteDay(prev, candidates, rid, e);
      assert es[n..][1..] == es[n + 1..];
    }
  }

  /** `update_restaurant_opening_hours` as written. */
  method UpdateRestaurantOpeningHours(db: Session, rid: int, es: seq<HoursInput>)
    modifies db`hours
    ensures db.hours == HoursAfter(old(db.hours), CrossJoinScope(old(db.hours), old(db.settings), rid), rid, es)
  {
    db.hours := WriteHours(db.hours, CrossJoinScope(db.hours, db.settings, rid), rid, es);
  }

  /** The loop of the corrected update. */
  method WriteOwnHours(before: map<int, Hours>, rid: int, es: seq<HoursInput>) returns (next: map<int, Hours>)
    ensures next == OwnHoursAfter(before, rid, es)
  {
    next := before;
    for n := 0 to |es|
      invariant OwnHoursAfter(next, rid, es[n..]) == OwnHoursAfter(before, rid, es)
    {
      var e := es[n];
      var candidates := HoursRows(next, rid, e.day);
      ghost var prev := next;
      if candidates == {} {
        var k := FreshKey(next);
        next := next[k := NewHours(rid, e)];
      } else {
        var k := FindMax(candidates);
        next := next[k := Written(next[k], e)];
      }
      assert next == WriteDay(prev, candidates, rid, e);
      assert es[n..][1..] == es[n + 1..];
    }
  }

  /** The update with the query restricted to the restaurant's own rows. */
  method UpdateOwnOpeningHours(db: Session, rid: int, es: seq<HoursInput>)
    modifies db`hours
    ensures db.hours == OwnHoursAfter(old(db.hours), rid, es)
  {
    db.hours := WriteOwnHours(db.hours, rid, es);
  }

  /** One day of the corrected update: that day's last row holds the day's
      values, the other days' last rows and other restaurants' rows stay. */
  lemma OwnDayWritten(h: map<int, Hours>, rid: int, e: HoursInput, d: int)
    ensures var h' := WriteDay(h, HoursRows(h, rid, e.day), rid, e);
      LastRow(h', rid, d) == (if d == e.day then Some(NewHours(rid, e)) else LastRow(h, rid, d))
      && (forall k :: k in h && h[k].restaurant != rid ==> k in h' && h'[k] == h[k])
      && (forall k :: k in h' && k !in h ==> h'[k].restaurant == rid)
  {
    var rows := HoursRows(h, rid, e.day);
    if rows == {} {
      HoursAdded(h, NextKey(h.Keys), NewHours(rid, e), rid, d);
    } else {
      var k := MaxKey(rows);
      var h' := h[k := Written(h[k], e)];
      assert HoursRows(h', rid, d) == HoursRows(h, rid, d);
      if d != e.day && HoursRows(h, rid, d) != {} {
        assert MaxKey(HoursRows(h, rid, d)) != k;
      }
    }
  }

  /** The corrected update stores what was submitted: each submitted day's
      row reads back with the submitted values, days not submitted keep
      theirs, and other restaurants' rows are untouched. */
  lemma {:induction false} OwnHoursWritten(h: map<int, Hours>, rid: int, es: seq<HoursInput>)
    requires DistinctDays(es)
    ensures forall i :: 0 <= i < |es| ==> LastRow(OwnHoursAfter(h, rid, es), rid, es[i].day) == Some(NewHours(rid, es[i]))
    ensures forall d :: (forall i :: 0 <= i < |es| ==> es[i].day != d) ==>
      LastRow(OwnHoursAfter(h, rid, es), rid, d) == LastRow(h, rid, d)
    ensures forall k :: k in h && h[k].restaurant != rid ==>
      k in OwnHoursAfter(h, rid, es) && OwnHoursAfter(h, rid, es)[k] == h[k]
    decreases |es|
  {
    if es != [] {
      var h1 := WriteDay(h, HoursRows(h, rid, es[0].day), rid, es[0]);
      var rest := es[1..];
      assert DistinctDays(rest) by {
        forall i, j | 0 <= i < j < |rest|
          ensures rest[i].day != rest[j].day
        {
          assert rest[i] == es[i + 1] && rest[j] == es[j + 1];
        }
      }
      OwnHoursWritten(h1, rid, rest);
      var after := OwnHoursAfter(h, rid, es);
      assert after == OwnHoursAfter(h1, rid, rest);
      forall d
        ensures LastRow(h1, rid, d) == (if d == es[0].day then Some(NewHours(rid, es[0])) else LastRow(h, rid, d))
        ensures forall k :: k in h && h[k].restaurant != rid ==> k in h1 && h1[k] == h[k]
      {
        OwnDayWritten(h, rid, es[0], d);
      }
      forall i | 0 <= i < |es|
        ensures LastRow(after, rid, es[i].day) == Some(NewHours(rid, es[i]))
      {
        if i == 0 {
          assert forall j :: 0 <= j < |rest| ==> rest[j].day != es[0].day by {
            forall j | 0 <= j < |rest|
              ensures rest[j].day != es[0].day
            {
              assert rest[j] == es[j + 1];
            }
          }
        } else {
          assert es[i] == rest[i - 1];
        }
      }
      forall d | forall i :: 0 <= i < |es| ==> es[i].day != d
        ensures LastRow(after, rid, d) == LastRow(h, rid, d)
      {
        assert es[0].day != d;
        assert forall j :: 0 <= j < |rest| ==> rest[j].day != d by {
          forall j | 0 <= j < |rest|
            ensures rest[j].day != d
          {
            assert rest[j] == es[j + 1];
          }
        }
      }
    }
  }

  /** As written, saving a restaurant's hours rewrites another restaurant's
      row and gives the restaurant none: restaurant 1 has a Monday row,
      restaurant 2 has a settings row and marks Monday closed. */
  lemma CrossJoinOverwritesForeignHours()
    ensures var h := map[1 := Hours(1, 0, Some(600), Some(1320), false, false)];
            var s := map[1 := Setting(2, 1, true)];
            var es := [HoursInput(0, None, None, false, true)];
            var written := HoursAfter(h, CrossJoinScope(h, s, 2), 2, es);
            written == map[1 := Hours(1, 0, None, None, false, true)]
            && LastRow(written, 2, 0) == None
            && LastRow(OwnHoursAfter(h, 2, es), 2, 0) == Some(Hours(2, 0, None, None, false, true))
  {
    var h := map[1 := Hours(1, 0, Some(600), Some(1320), false, false)];
    var s := map[1 := Setting(2, 1, true)];
    var es := [HoursInput(0, None, None, false, true)];
    assert 1 in s && s[1].restaurant == 2;
    assert s[1].flag in SetFlags(s, 2);
    assert ScopeRows(h, h.Keys, 0) == {1};
    var written := HoursAfter(h, h.Keys, 2, es);
    assert written == HoursAfter(WriteDay(h, {1}, 2, es[0]), h.Keys, 2, []);
    assert HoursRows(written, 2, 0) == {};
    OwnHoursWritten(h, 2, es);
  }
}
