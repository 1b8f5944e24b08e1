/** `Date::to_string`: dates in the format of section 7.1.1.1 of RFC 7231, with a cache of one entry. */
module Dates {
  import opened Text

  // ----- Specification -----

  // The fields of a `struct tm` that are used; the year counts from 1900, the month from 0.
  datatype Tm = Tm(sec: int, min: int, hour: int, mday: int, mon: int, year: int, wday: int)

  const WEEKDAYS: seq<string> := ["Sun, ", "Mon, ", "Tue, ", "Wed, ", "Thu, ", "Fri, ", "Sat, "]
  const MONTHS: seq<string> := [" Jan ", " Feb ", " Mar ", " Apr ", " May ", " Jun ",
                                " Jul ", " Aug ", " Sep ", " Oct ", " Nov ", " Dec "]

  // Division and remainder that truncate toward zero.
  function Quotient(a: int, b: int): int
    requires b > 0
  {
    if a < 0 then -(-a / b) else a / b
  }

  function Remainder(a: int, b: int): int
    requires b > 0
  {
    a - b * Quotient(a, b)
  }

  // A conversion from int to char keeps the lowest byte.
  function ToChar(n: int): char {
    (n % 256) as char
  }

  function TwoDigits(n: int): string {
    [if n < 10 then '0' else ToChar(Quotient(n, 10) + 48), ToChar(Remainder(n, 10) + 48)]
  }

  function FourDigits(n: int): string {
    [ToChar(Quotient(n, 1000) + 48), ToChar(Remainder(Quotient(n, 100), 10) + 48),
     ToChar(Remainder(Quotient(n, 10), 10) + 48), ToChar(Remainder(n, 10) + 48)]
  }

  function Name(names: seq<string>, k: int): string {
    if 0 <= k < |names| then names[k] else ""
  }

  // The parts of a date put together.
  function Join(w: string, d: string, m: string, y: string, h: string, mi: string, s: string): string {
    w + d + m + y + " " + h + ":" + mi + ":" + s + " GMT"
  }

  function Render(tm: Tm): string {
    Join(Name(WEEKDAYS, tm.wday), TwoDigits(tm.mday), Name(MONTHS, tm.mon), FourDigits(tm.year + 1900),
         TwoDigits(tm.hour), TwoDigits(tm.min), TwoDigits(tm.sec))
  }

  // How the clock counts, and `gmtime`, which may fail.
  datatype Clock = Clock(ticksPerSecond: int, gmtime: int -> Option<Tm>)

  ghost predicate Ticking(clock: Clock) {
    clock.ticksPerSecond > 0
  }

  ghost predicate Converts(clock: Clock, t: int)
    requires Ticking(clock)
  {
    clock.gmtime(Quotient(t, clock.ticksPerSecond)).Some?
  }

  // The string for an instant, computed anew: none if the instant cannot be converted.
  ghost function Rendered(clock: Clock, t: int): string
    requires Ticking(clock)
  {
    match clock.gmtime(Quotient(t, clock.ticksPerSecond))
    case None => ""
    case Some(tm) => Render(tm)
  }

  // Less than one second apart.
  ghost predicate Near(clock: Clock, t: int, u: int) {
    -clock.ticksPerSecond < t - u < clock.ticksPerSecond
  }

  // The static variables: the cached string, and the last instant that was not near its predecessor.
  datatype Cache = Cache(text: string, last: int)

  const START := Cache("", 0)

  // One call: the string returned, and the static variables afterwards.
  ghost function Call(clock: Clock, cache: Cache, t: int): (string, Cache)
    requires Ticking(clock)
  {
    if cache.text != "" && Near(clock, t, cache.last) then (cache.text, cache)
    else if Converts(clock, t) then (Rendered(clock, t), Cache(Rendered(clock, t), t))
    else ("", cache.(last := t))
  }

  // The static variables after calls for these instants...
  ghost function After(clock: Clock, times: seq<int>): Cache
    requires Ticking(clock)
  {
    if times == [] then START else Call(clock, After(clock, times[..|times| - 1]), times[|times| - 1]).1
  }

  // ...and what the last of these calls returns.
  ghost function Reply(clock: Clock, times: seq<int>): string
    requires Ticking(clock) && times != []
  {
    Call(clock, After(clock, times[..|times| - 1]), times[|times| - 1]).0
  }

  // ----- The code -----

  class Date {
    var resultCache: string
    var lastTimePoint: int

    constructor ()
      ensures State() == START
    {
      resultCache, lastTimePoint := "", 0;
    }

    ghost function State(): Cache
      reads this
    {
      Cache(resultCache, lastTimePoint)
    }

    method ToString(clock: Clock, timePoint: int) returns (result: string)
      requires Ticking(clock)
      modifies this
      ensures (result, State()) == Call(clock, old(State()), timePoint)
    {
      NearIsZeroSeconds(clock, timePoint, lastTimePoint);
      if Quotient(timePoint - lastTimePoint, clock.ticksPerSecond) == 0 && resultCache != "" {
        return resultCache;
      }
      lastTimePoint := timePoint;
      var time := Quotient(timePoint, clock.ticksPerSecond);
      var gmtime := clock.gmtime(time);
      if gmtime.None? {
        return "";
      }
      var tm := gmtime.value;

      result := Format(tm);
      RenderIsNotEmpty(tm);
      resultCache := result;
    }
  }

  lemma NearIsZeroSeconds(clock: Clock, t: int, u: int)
    requires Ticking(clock)
    ensures Near(clock, t, u) <==> Quotient(t - u, clock.ticksPerSecond) == 0
  {
  }

  lemma RenderIsNotEmpty(tm: Tm)
    ensures Render(tm) != ""
  {
  }

  // The part of the code that puts the string together.
  method Format(tm: Tm) returns (result: string)
    ensures result == Render(tm)
  {
    hide Name, TwoDigits, FourDigits;
    result := "";
    result := AppendWeekday(result, tm.wday);
    assert result == Name(WEEKDAYS, tm.wday);
    result := AppendTwo(result, tm.mday);
    result := AppendMonth(result, tm.mon);
    var year := tm.year + 1900;
    result := AppendFour(result, year);
    result := result + " ";
    result := AppendTwo(result, tm.hour);
    result := result + ":";
    result := AppendTwo(result, tm.min);
    result := result + ":";
    result := AppendTwo(result, tm.sec);
    result := result + " GMT";
  }

  method AppendTwo(before: string, n: int) returns (result: string)
    ensures result == before + TwoDigits(n)
  {
    result := before + [if n < 10 then '0' else ToChar(Quotient(n, 10) + 48)];
    result := result + [ToChar(Remainder(n, 10) + 48)];
  }

  method AppendFour(before: string, n: int) returns (result: string)
    ensures result == before + FourDigits(n)
  {
    hide ToChar, Quotient, Remainder;
    result := before + [ToChar(Quotient(n, 1000) + 48)];
    result := result + [ToChar(Remainder(Quotient(n, 100), 10) + 48)];
    result := result + [ToChar(Remainder(Quotient(n, 10), 10) + 48)];
    result := result + [ToChar(Remainder(n, 10) + 48)];
  }

  method AppendWeekday(before: string, wday: int) returns (result: string)
    ensures result == before + Name(WEEKDAYS, wday)
  {
    result := before;
    match wday {
      case 0 => result := result + "Sun, ";
      case 1 => result := result + "Mon, ";
      case 2 => result := result + "Tue, ";
      case 3 => result := result + "Wed, ";
      case 4 => result := result + "Thu, ";
      case 5 => result := result + "Fri, ";
      case 6 => result := result + "Sat, ";
      case _ =>
    }
  }

  method AppendMonth(before: string, mon: int) returns (result: string)
    ensures result == before + Name(MONTHS, mon)
  {
    result := before;
    match mon {
      case 0 => result := result + " Jan ";
      case 1 => result := result + " Feb ";
      case 2 => result := result + " Mar ";
      case 3 => result := result + " Apr ";
      case 4 => result := result + " May ";
      case 5 => result := result + " Jun ";
      case 6 => result := result + " Jul ";
      case 7 => result := result + " Aug ";
      case 8 => result := result + " Sep ";
      case 9 => result := result + " Oct ";
      case 10 => result := result + " Nov ";
      case 11 => result := result + " Dec ";
      case _ =>
    }
  }

  // ----- Runs of calls -----

  // After any calls, a cached string is that of the instant it is filed under, if that instant can
  // be converted...
  lemma {:induction false} CacheMatches(clock: Clock, times: seq<int>)
    requires Ticking(clock)
    ensures var c := After(clock, times); c.text != "" && Converts(clock, c.last) ==> c.text == Rendered(clock, c.last)
  {
    hide Render, Quotient;
    if times == [] {
    } else {
      CacheMatches(clock, times[..|times| - 1]);
    }
  }

  // ...and that instant was asked for.
  lemma {:induction false} LastWasAskedFor(clock: Clock, times: seq<int>)
    requires Ticking(clock) && times != []
    ensures After(clock, times).last in times
  {
    hide Render, Quotient;
    var n, front := |times| - 1, times[..|times| - 1];
    assert times[n] in times;
    if front == [] {
    } else {
      LastWasAskedFor(clock, front);
      assert forall t :: t in front ==> t in times;
    }
  }

  // The cache is empty, or filed under an instant a second or more away, or under one that can be
  // converted.
  ghost predicate InStep(clock: Clock, cache: Cache, t: int)
    requires Ticking(clock)
  {
    cache.text == "" || !Near(clock, t, cache.last) || Converts(clock, cache.last)
  }

  // A call after any others returns the string of the instant that the cache is then filed under,
  // which is less than one second away, if and only if the cache was in step.
  lemma {:induction false} ReplyIsFreshIff(clock: Clock, times: seq<int>, t: int)
    requires Ticking(clock)
    ensures var c := After(clock, times);
            var (reply, c') := Call(clock, c, t);
            && Near(clock, t, c'.last)
            && (reply == Rendered(clock, c'.last) <==> InStep(clock, c, t))
  {
    hide Render, Quotient;
    CacheMatches(clock, times);
  }

  // A reply that is right for some instant less than one second away.
  ghost predicate Honest(clock: Clock, t: int, reply: string)
    requires Ticking(clock)
  {
    exists u :: Near(clock, t, u) && reply == Rendered(clock, u)
  }

  ghost predicate FailsAround(clock: Clock, f: int)
    requires Ticking(clock)
  {
    forall u :: Near(clock, f, u) ==> !Converts(clock, u)
  }

  // The same with any instant less than one second away: on that condition the reply is right for
  // one; off it, where no instant that near can be converted, for none.
  lemma {:induction false} HonestReply(clock: Clock, times: seq<int>, t: int)
    requires Ticking(clock)
    ensures var c := After(clock, times);
            && (InStep(clock, c, t) ==> Honest(clock, t, Call(clock, c, t).0))
            && (!InStep(clock, c, t) && FailsAround(clock, t) ==> !Honest(clock, t, Call(clock, c, t).0))
  {
    hide Render, Quotient;
    ReplyIsFreshIff(clock, times, t);
  }

  ghost predicate AllConvert(clock: Clock, times: seq<int>)
    requires Ticking(clock)
  {
    forall t :: t in times ==> Converts(clock, t)
  }

  // As long as every instant can be converted, every string returned is that of an instant asked
  // for less than one second from the requested one, however many calls the cache has answered in
  // between.
  lemma RepliesAreFresh(clock: Clock, times: seq<int>)
    requires Ticking(clock) && AllConvert(clock, times) && times != []
    ensures exists u :: u in times && Near(clock, times[|times| - 1], u) && Reply(clock, times) == Rendered(clock, u)
  {
    hide Render, Quotient, Near, Rendered;
    var n, front := |times| - 1, times[..|times| - 1];
    ReplyIsFreshIff(clock, front, times[n]);
    LastWasAskedFor(clock, times);
    if front == [] {
    } else {
      LastWasAskedFor(clock, front);
      assert forall t :: t in front ==> t in times;
    }
  }

  ghost predicate AlwaysHonest(clock: Clock)
    requires Ticking(clock)
  {
    forall times :: times != [] ==> Honest(clock, times[|times| - 1], Reply(clock, times))
  }

  // All sequences of calls get such replies if the conversion fails nowhere or everywhere, and not
  // if it succeeds somewhere and fails throughout two seconds somewhere else.
  lemma HonestCalendars(clock: Clock)
    requires Ticking(clock)
    ensures (forall t :: Converts(clock, t)) || (forall t :: !Converts(clock, t)) ==> AlwaysHonest(clock)
    ensures (exists t :: Converts(clock, t)) && (exists f :: FailsAround(clock, f)) ==> !AlwaysHonest(clock)
  {
    hide Reply, Rendered, Near, Converts;
    if (forall t :: Converts(clock, t)) || (forall t :: !Converts(clock, t)) {
      forall times: seq<int> | times != []
        ensures Honest(clock, times[|times| - 1], Reply(clock, times))
      {
        if forall t :: Converts(clock, t) {
          RepliesAreFresh(clock, times);
        } else {
          NothingConverted(clock, times);
        }
      }
    }
    if (exists t :: Converts(clock, t)) && (exists f :: FailsAround(clock, f)) {
      var m :| Converts(clock, m);
      var f :| FailsAround(clock, f);
      StaleReply(clock, m, f);
    }
  }

  lemma NothingConverted(clock: Clock, times: seq<int>)
    requires Ticking(clock) && (forall t :: !Converts(clock, t)) && times != []
    ensures Honest(clock, times[|times| - 1], Reply(clock, times))
  {
    NothingCached(clock, times[..|times| - 1]);
    HonestReply(clock, times[..|times| - 1], times[|times| - 1]);
  }

  lemma {:induction false} NothingCached(clock: Clock, times: seq<int>)
    requires Ticking(clock) && forall t :: !Converts(clock, t)
    ensures After(clock, times).text == ""
  {
    hide Quotient;
    if times == [] {
    } else {
      NothingCached(clock, times[..|times| - 1]);
      assert !Converts(clock, times[|times| - 1]);
    }
  }

  // One successful call, then a failing one, made twice.
  lemma StaleReply(clock: Clock, m: int, f: int)
    requires Ticking(clock) && Converts(clock, m) && FailsAround(clock, f)
    ensures Reply(clock, [m, f]) == "" && Reply(clock, [m, f, f]) == Rendered(clock, m)
    ensures !Honest(clock, f, Reply(clock, [m, f, f])) && !AlwaysHonest(clock)
  {
    hide Quotient, Render;
    assert [m][..0] == [] && [m, f][..1] == [m] && [m, f, f][..2] == [m, f];
    RenderIsNotEmpty(clock.gmtime(Quotient(m, clock.ticksPerSecond)).value);
    assert After(clock, [m]) == Cache(Rendered(clock, m), m);
    assert !Near(clock, f, m) && Near(clock, f, f);
    assert After(clock, [m, f]) == Cache(Rendered(clock, m), f);
    HonestReply(clock, [m, f], f);
    var times := [m, f, f];
    assert times[|times| - 1] == f;
  }

  // ----- The format -----

  // What `gmtime` promises of the fields.
  predicate InRange(tm: Tm) {
    && 0 <= tm.sec <= 60 && 0 <= tm.min < 60 && 0 <= tm.hour < 24
    && 1 <= tm.mday <= 31 && 0 <= tm.mon < 12 && 0 <= tm.wday < 7
  }

  // The number written with these digits.
  function Number(digits: string): Option<nat> {
    if digits == "" then Some(0)
    else
      var c := digits[|digits| - 1];
      match Number(digits[..|digits| - 1])
      case None => None
      case Some(n) => if '0' <= c <= '9' then Some(10 * n + (c as nat - '0' as nat)) else None
  }

  function IndexOf(names: seq<string>, name: string): Option<nat> {
    if names == [] then None
    else if names[|names| - 1] == name then Some(|names| - 1)
    else IndexOf(names[..|names| - 1], name)
  }

  // Reading a date of 29 characters.
  function ReadBack(text: string): Option<Tm> {
    if |text| != 29 || text[16..17] != " " || text[19..20] != ":" || text[22..23] != ":" || text[25..] != " GMT"
    then None
    else
      match (IndexOf(WEEKDAYS, text[..5]), Number(text[5..7]), IndexOf(MONTHS, text[7..12]), Number(text[12..16]),
             Number(text[17..19]), Number(text[20..22]), Number(text[23..25]))
      case (Some(wday), Some(mday), Some(mon), Some(year), Some(hour), Some(min), Some(sec)) =>
        Some(Tm(sec, min, hour, mday, mon, year - 1900, wday))
      case _ => None
  }

  lemma NumberSnoc(front: string, n: nat)
    requires n < 10
    ensures Number(front + [ToChar(n + 48)]).Some? <==> Number(front).Some?
    ensures Number(front).Some? ==> Number(front + [ToChar(n + 48)]) == Some(10 * Number(front).value + n)
  {
  }

  lemma NumberOfTwo(n: nat)
    requires n < 100
    ensures Number(TwoDigits(n)) == Some(n)
  {
    NumberSnoc("", n / 10);
    NumberSnoc("" + [ToChar(n / 10 + 48)], n % 10);
    assert ToChar(48) == '0';
    assert TwoDigits(n) == "" + [ToChar(n / 10 + 48)] + [ToChar(n % 10 + 48)];
  }

  lemma NumberOfFour(n: nat)
    requires n < 10000
    ensures Number(FourDigits(n)) == Some(n)
  {
    var a, b, c, d := n / 1000, n / 100 % 10, n / 10 % 10, n % 10;
    FourDigitsOf(n);
    FourNumbers(n);
    hide ToChar, Number, FourDigits;
    var s1 := [ToChar(a + 48)];
    var s2 := s1 + [ToChar(b + 48)];
    var s3 := s2 + [ToChar(c + 48)];
    NumberOfOne(a);
    NumberSnoc(s1, b);
    NumberSnoc(s2, c);
    NumberSnoc(s3, d);
    assert FourDigits(n) == s3 + [ToChar(d + 48)];
  }

  lemma NumberOfOne(n: nat)
    requires n < 10
    ensures Number([ToChar(n + 48)]) == Some(n)
  {
  }

  lemma FourDigitsOf(n: nat)
    requires n < 10000
    ensures FourDigits(n) == [ToChar(n / 1000 + 48), ToChar(n / 100 % 10 + 48),
                              ToChar(n / 10 % 10 + 48), ToChar(n % 10 + 48)]
  {
  }

  lemma FourNumbers(n: nat)
    ensures 10 * (10 * (10 * (n / 1000) + n / 100 % 10) + n / 10 % 10) + n % 10 == n
  {
    assert n / 100 == 10 * (n / 1000) + n / 100 % 10;
    assert n / 10 == 10 * (n / 100) + n / 10 % 10;
  }

  // A number of four digits is less than 10000.
  lemma NumberBound(digits: string)
    requires |digits| == 4 && Number(digits).Some?
    ensures Number(digits).value < 10000
  {
    var a, b, c := digits[..1], digits[..2], digits[..3];
    assert c[..2] == b && b[..1] == a && a[..0] == "";
    assert Number(a).Some? && Number(a).value < 10;
    assert Number(b).Some? && Number(b).value < 100;
  }

  lemma {:induction false} IndexOfName(names: seq<string>, k: nat)
    requires k < |names| && forall i, j :: 0 <= i < j < |names| ==> names[i] != names[j]
    ensures IndexOf(names, names[k]) == Some(k)
  {
    if k == |names| - 1 {
    } else {
      IndexOfName(names[..|names| - 1], k);
    }
  }

  lemma WeekdaysDiffer()
    ensures forall i, j :: 0 <= i < j < |WEEKDAYS| ==> WEEKDAYS[i] != WEEKDAYS[j]
    ensures forall i :: 0 <= i < |WEEKDAYS| ==> |WEEKDAYS[i]| == 5
  {
  }

  lemma MonthsDiffer()
    ensures forall i, j :: 0 <= i < j < |MONTHS| ==> MONTHS[i] != MONTHS[j]
    ensures forall i :: 0 <= i < |MONTHS| ==> |MONTHS[i]| == 5
  {
  }

  // The places of the parts in a date.
  lemma Places(w: string, d: string, m: string, y: string, h: string, mi: string, s: string)
    requires |w| == 5 && |d| == 2 && |m| == 5 && |y| == 4 && |h| == 2 && |mi| == 2 && |s| == 2
    ensures var text := Join(w, d, m, y, h, mi, s);
            && |text| == 29 && text[..5] == w && text[5..7] == d && text[7..12] == m && text[12..16] == y
            && text[16..17] == " " && text[17..19] == h && text[19..20] == ":" && text[20..22] == mi
            && text[22..23] == ":" && text[23..25] == s && text[25..] == " GMT"
  {
  }

  lemma {:induction false} ReadParts(w: string, d: string, m: string, y: string, h: string, mi: string, s: string)
    requires |w| == 5 && |d| == 2 && |m| == 5 && |y| == 4 && |h| == 2 && |mi| == 2 && |s| == 2
    requires IndexOf(WEEKDAYS, w).Some? && IndexOf(MONTHS, m).Some?
    requires Number(d).Some? && Number(h).Some? && Number(mi).Some? && Number(s).Some?
    ensures |Join(w, d, m, y, h, mi, s)| == 29
    ensures ReadBack(Join(w, d, m, y, h, mi, s)).Some? <==> Number(y).Some?
    ensures Number(y).Some? ==>
              var tm := ReadBack(Join(w, d, m, y, h, mi, s)).value;
              && tm.year == Number(y).value - 1900 && tm.mon == IndexOf(MONTHS, m).value && tm.mday == Number(d).value
              && tm.wday == IndexOf(WEEKDAYS, w).value
              && tm.hour == Number(h).value && tm.min == Number(mi).value && tm.sec == Number(s).value
  {
    hide Number, IndexOf, Join;
    Places(w, d, m, y, h, mi, s);
  }

  lemma DigitCount(tm: Tm)
    ensures |TwoDigits(tm.mday)| == |TwoDigits(tm.hour)| == |TwoDigits(tm.min)| == |TwoDigits(tm.sec)| == 2
    ensures |FourDigits(tm.year + 1900)| == 4
  {
  }

  // Every field but the year is always read back.
  lemma FieldsAreRead(tm: Tm)
    requires InRange(tm)
    ensures |Render(tm)| == 29
    ensures ReadBack(Render(tm)) ==
            match Number(FourDigits(tm.year + 1900))
            case None => None
            case Some(year) => Some(tm.(year := year - 1900))
  {
    hide *;
    var w, m := Name(WEEKDAYS, tm.wday), Name(MONTHS, tm.mon);
    var d, y, h := TwoDigits(tm.mday), FourDigits(tm.year + 1900), TwoDigits(tm.hour);
    DigitCount(tm);
    NamesAreFound(tm);
    TwoDigitFields(tm);
    RenderIsJoined(tm);
    ReadParts(w, d, m, y, h, TwoDigits(tm.min), TwoDigits(tm.sec));
  }

  lemma TwoDigitFields(tm: Tm)
    requires InRange(tm)
    ensures Number(TwoDigits(tm.mday)) == Some(tm.mday) && Number(TwoDigits(tm.hour)) == Some(tm.hour)
    ensures Number(TwoDigits(tm.min)) == Some(tm.min) && Number(TwoDigits(tm.sec)) == Some(tm.sec)
  {
    NumberOfTwo(tm.mday);
    NumberOfTwo(tm.hour);
    NumberOfTwo(tm.min);
    NumberOfTwo(tm.sec);
  }

  lemma RenderIsJoined(tm: Tm)
    ensures Render(tm) == Join(Name(WEEKDAYS, tm.wday), TwoDigits(tm.mday), Name(MONTHS, tm.mon),
                               FourDigits(tm.year + 1900), TwoDigits(tm.hour), TwoDigits(tm.min), TwoDigits(tm.sec))
  {
  }

  lemma NamesAreFound(tm: Tm)
    requires InRange(tm)
    ensures |Name(WEEKDAYS, tm.wday)| == 5 && IndexOf(WEEKDAYS, Name(WEEKDAYS, tm.wday)) == Some(tm.wday)
    ensures |Name(MONTHS, tm.mon)| == 5 && IndexOf(MONTHS, Name(MONTHS, tm.mon)) == Some(tm.mon)
  {
    WeekdaysDiffer();
    MonthsDiffer();
    IndexOfName(WEEKDAYS, tm.wday);
    IndexOfName(MONTHS, tm.mon);
  }

  // A rendered date always has 29 characters. All its fields can be read back if and only if the
  // year has at most four digits and is not negative.
  lemma RenderReadsBack(tm: Tm)
    requires InRange(tm)
    ensures |Render(tm)| == 29
    ensures ReadBack(Render(tm)) == Some(tm) <==> 0 <= tm.year + 1900 <= 9999
  {
    hide TwoDigits, FourDigits, Number, IndexOf;
    FieldsAreRead(tm);
    DigitCount(tm);
    if 0 <= tm.year + 1900 <= 9999 {
      NumberOfFour(tm.year + 1900);
    } else if Number(FourDigits(tm.year + 1900)).Some? {
      NumberBound(FourDigits(tm.year + 1900));
    }
  }

  // ----- Known dates -----

  // The names of section 7.1.1.1, counted from Sunday and January; other numbers have none.
  lemma WeekdayNames(k: int)
    ensures Name(WEEKDAYS, 0) == "Sun, " && Name(WEEKDAYS, 1) == "Mon, " && Name(WEEKDAYS, 2) == "Tue, "
    ensures Name(WEEKDAYS, 3) == "Wed, " && Name(WEEKDAYS, 4) == "Thu, " && Name(WEEKDAYS, 5) == "Fri, "
    ensures Name(WEEKDAYS, 6) == "Sat, " && (k < 0 || k >= 7 ==> Name(WEEKDAYS, k) == "")
  {
  }

  lemma MonthNames(k: int)
    ensures Name(MONTHS, 0) == " Jan " && Name(MONTHS, 1) == " Feb " && Name(MONTHS, 2) == " Mar "
    ensures Name(MONTHS, 3) == " Apr " && Name(MONTHS, 4) == " May " && Name(MONTHS, 5) == " Jun "
    ensures Name(MONTHS, 6) == " Jul " && Name(MONTHS, 7) == " Aug " && Name(MONTHS, 8) == " Sep "
    ensures Name(MONTHS, 9) == " Oct " && Name(MONTHS, 10) == " Nov " && Name(MONTHS, 11) == " Dec "
    ensures k < 0 || k >= 12 ==> Name(MONTHS, k) == ""
  {
  }

  lemma KnownDigits()
    ensures TwoDigits(23) == "23" && TwoDigits(34) == "34" && TwoDigits(11) == "11" && TwoDigits(31) == "31"
    ensures FourDigits(2019) == "2019"
  {
  }

  lemma KnownParts()
    ensures Join("Wed, ", "31", " Jul ", "2019", "11", "34", "23") == "Wed, 31 Jul 2019 11:34:23 GMT"
  {
  }

  // The date in the comment on the function.
  lemma KnownDate()
    ensures Render(Tm(23, 34, 11, 31, 6, 119, 3)) == "Wed, 31 Jul 2019 11:34:23 GMT"
  {
    KnownDigits();
    KnownParts();
    hide TwoDigits, FourDigits, Join;
  }

  // The count of whole seconds drops the rest, in either direction of time.
  lemma TowardZero(a: int, b: int)
    requires a >= 0 && b > 0
    ensures Quotient(a, b) == a / b && Quotient(-a, b) == -(a / b)
  {
    if a > 0 {
      var c := -a;
      assert Quotient(c, b) == -(-c / b) && -c == a;
    }
  }
}
