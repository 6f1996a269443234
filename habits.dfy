/** The habit tracker: per habit, a map from ISO dates to whether it was done, kept in `habits.json`. */
module Habits {
  import opened Common
  import opened Ordering

  datatype Habit = Habit(name: string, records: map<string, bool>)

  /** Every habit is filed under its own name, as `_load` and `add` build them. */
  predicate Named(h: map<string, Habit>) {
    forall k :: k in h ==> h[k].name == k
  }

  /** `_load`: one habit per name of the parsed object, or none when the file is missing or unreadable. */
  function Load(stored: Option<map<string, map<string, bool>>>): (h: map<string, Habit>)
    ensures Named(h)
    ensures stored.None? ==> h == map[]
    ensures stored.Some? ==> h.Keys == stored.value.Keys && forall k :: k in h ==> h[k].records == stored.value[k]
  {
    if stored.Some? then map k | k in stored.value :: Habit(k, stored.value[k]) else map[]
  }

  /** The object `_save` writes: each habit's name to its records. */
  function Payload(h: map<string, Habit>): (p: map<string, map<string, bool>>)
    ensures p.Keys == h.Keys
  {
    map k | k in h :: h[k].records
  }

  /** Saving and then loading gives back the same habits. */
  lemma LoadPayload(h: map<string, Habit>)
    requires Named(h)
    ensures Load(Some(Payload(h))) == h
  {
    var l := Load(Some(Payload(h)));
    assert forall k :: k in h ==> l[k] == Habit(k, h[k].records) == h[k];
  }

  /** Loading and then saving writes back the same object. */
  lemma PayloadLoad(p: map<string, map<string, bool>>)
    ensures Payload(Load(Some(p))) == p
  {
  }

  /** The habit `add` and `mark` work on: the stored one, or a new one without records. */
  function Existing(h: map<string, Habit>, name: string): (r: Habit)
    ensures name in h ==> r == h[name]
    ensures name !in h ==> r == Habit(name, map[])
  {
    if name in h then h[name] else Habit(name, map[])
  }

  /** Python's `date or today`: a missing or empty date means today. */
  function DateOr(date: Option<string>, today: string): string {
    if date.Some? && date.value != "" then date.value else today
  }

  function ByName(h: Habit): Key {
    [S(h.name)]
  }

  lemma ByNameOrder(a: Habit, b: Habit)
    ensures ByKey(ByName, false)(a, b) <==> StrLt(a.name, b.name)
  {
    var key: Habit -> Key := ByName;
    assert key(a) == [S(a.name)] && key(b) == [S(b.name)];
    assert ByKey(key, false)(a, b) == Before(key(a), key(b), false);
    if a.name == b.name {
      StrLtIrreflexive(a.name);
      KeyLtIrreflexive(key(a));
    } else {
      assert [S(a.name)][0] != [S(b.name)][0];
      assert KeyLt(key(a), key(b)) == AtomLt(S(a.name), S(b.name));
    }
  }

  // ---- Month prefixes: Python's `f"{year:04d}-{month:02d}-"` ----

  function DigitChar(d: int): char
    requires 0 <= d < 10
  {
    ('0' as int + d) as char
  }

  predicate AllDigits(s: string) {
    forall i :: 0 <= i < |s| ==> '0' <= s[i] <= '9'
  }

  /** The decimal digits of `n`, without leading zeros. */
  function Digits(n: nat): (s: string)
    ensures |s| >= 1 && AllDigits(s)
  {
    if n < 10 then [DigitChar(n)] else Digits(n / 10) + [DigitChar(n % 10)]
  }

  /** The number a string of decimal digits denotes. */
  function Value(s: string): int
    requires AllDigits(s)
  {
    if s == [] then 0 else Value(s[..|s| - 1]) * 10 + (s[|s| - 1] as int - '0' as int)
  }

  function Zeros(k: nat): (s: string)
    ensures |s| == k && AllDigits(s)
  {
    if k == 0 then [] else ['0'] + Zeros(k - 1)
  }

  /** `format(n, "0<w>d")`: a minus sign for negatives, then the digits zero-filled to width `w` in all. */
  function FormatInt(n: int, w: int): string {
    if n < 0 then
      var d := Digits(-n);
      "-" + (if |d| < w - 1 then Zeros(w - 1 - |d|) else []) + d
    else
      var d := Digits(n);
      (if |d| < w then Zeros(w - |d|) else []) + d
  }

  /** The prefix of the ISO dates of one month, `YYYY-MM-`. */
  function MonthPrefix(year: int, month: int): string {
    FormatInt(year, 4) + "-" + FormatInt(month, 2) + "-"
  }

  function Pow10(k: nat): nat {
    if k == 0 then 1 else 10 * Pow10(k - 1)
  }

  lemma {:induction false} DigitsLength(n: nat, k: nat)
    requires 1 <= k && n < Pow10(k)
    ensures |Digits(n)| <= k
  {
    if n >= 10 {
      DigitsLength(n / 10, k - 1);
    }
  }

  lemma {:induction false} ValueDigits(n: nat)
    ensures Value(Digits(n)) == n
  {
    if n >= 10 {
      var s := Digits(n);
      assert s[..|s| - 1] == Digits(n / 10);
      ValueDigits(n / 10);
    }
  }

  lemma {:induction false} ValueLeadingZeros(k: nat, s: string)
    requires AllDigits(s)
    ensures AllDigits(Zeros(k) + s) && Value(Zeros(k) + s) == Value(s)
    decreases |s|
  {
    var z := Zeros(k) + s;
    if s == [] {
      assert z == Zeros(k);
      ZerosValue(k);
    } else {
      var init := s[..|s| - 1];
      assert z[..|z| - 1] == Zeros(k) + init;
      ValueLeadingZeros(k, init);
    }
  }

  lemma {:induction false} ZerosValue(k: nat)
    ensures Value(Zeros(k)) == 0
  {
    if k > 0 {
      var z := Zeros(k);
      assert z == Zeros(k - 1) + ['0'] by {
        ZerosShift(k);
      }
      assert z[..|z| - 1] == Zeros(k - 1);
      ZerosValue(k - 1);
    }
  }

  lemma {:induction false} ZerosShift(k: nat)
    requires k > 0
    ensures Zeros(k) == Zeros(k - 1) + ['0']
  {
    if k > 1 {
      ZerosShift(k - 1);
    }
  }

  /** A non-negative number formatted with zero fill reads back as itself, and is exactly `w` wide when it fits. */
  lemma FormatIntRoundTrip(n: nat, w: nat)
    ensures AllDigits(FormatInt(n, w)) && Value(FormatInt(n, w)) == n
    ensures 1 <= w && n < Pow10(w) ==> |FormatInt(n, w)| == w
  {
    var d := Digits(n);
    ValueDigits(n);
    if |d| < w {
      ValueLeadingZeros(w - |d|, d);
    } else {
      assert FormatInt(n, w) == d;
    }
    if 1 <= w && n < Pow10(w) {
      DigitsLength(n, w);
    }
  }

  /** Where the year and the month sit in a month prefix of a four-digit year. */
  lemma MonthPrefixParts(y: int, m: int)
    requires 0 <= y <= 9999 && 0 <= m <= 99
    ensures var p := MonthPrefix(y, m);
      |p| == 8 && p[..4] == FormatInt(y, 4) && p[5..7] == FormatInt(m, 2)
    ensures Value(FormatInt(y, 4)) == y && Value(FormatInt(m, 2)) == m
  {
    assert Pow10(4) == 10000 && Pow10(2) == 100;
    FormatIntRoundTrip(y, 4);
    FormatIntRoundTrip(m, 2);
  }

  /** Different months of four-digit years give different prefixes, so a date is counted in one month at most. */
  lemma MonthPrefixInjective(y1: int, m1: int, y2: int, m2: int)
    requires 0 <= y1 <= 9999 && 0 <= y2 <= 9999 && 0 <= m1 <= 99 && 0 <= m2 <= 99
    requires MonthPrefix(y1, m1) == MonthPrefix(y2, m2)
    ensures y1 == y2 && m1 == m2
  {
    MonthPrefixParts(y1, m1);
    MonthPrefixParts(y2, m2);
  }

  // ---- Monthly statistics ----

  /** The recorded dates of the month (`days`), and those of them marked done. */
  function MonthDays(records: map<string, bool>, prefix: string): set<string> {
    set d | d in records && IsPrefix(prefix, d)
  }

  function DoneDays(records: map<string, bool>, prefix: string): set<string> {
    set d | d in records && IsPrefix(prefix, d) && records[d]
  }

  datatype Stats = Stats(dones: nat, total: nat, perc: real)

  /** `monthly_stats`: the done and recorded dates of the month and the done percentage; zeros for an unknown habit. */
  function MonthlyStats(habits: map<string, Habit>, name: string, year: int, month: int): (s: Stats)
    ensures name !in habits ==> s == Stats(0, 0, 0.0)
    ensures name in habits ==>
      s.total == |MonthDays(habits[name].records, MonthPrefix(year, month))| &&
      s.dones == |DoneDays(habits[name].records, MonthPrefix(year, month))|
    ensures s.dones <= s.total
    ensures 0.0 <= s.perc <= 100.0
    ensures s.total == 0 ==> s.perc == 0.0
    ensures s.total > 0 && s.dones == s.total ==> s.perc == 100.0
  {
    if name !in habits then Stats(0, 0, 0.0)
    else
      var rec := habits[name].records;
      var prefix := MonthPrefix(year, month);
      var days := MonthDays(rec, prefix);
      var done := DoneDays(rec, prefix);
      assert done <= days;
      SubsetCard(done, days);
      var dones, total := |done|, |days|;
      Stats(dones, total, if total > 0 then dones as real / total as real * 100.0 else 0.0)
  }

  lemma SubsetCard(a: set<string>, b: set<string>)
    requires a <= b
    ensures |a| <= |b|
  {
    assert b == a + (b - a);
  }

  /** Marking a date of the month adds it to the month's dates if new, and counts it done exactly when `value` is. */
  lemma MarkCounts(records: map<string, bool>, prefix: string, date: string, value: bool)
    requires IsPrefix(prefix, date)
    ensures MonthDays(records[date := value], prefix) == MonthDays(records, prefix) + {date}
    ensures DoneDays(records[date := value], prefix) ==
      if value then DoneDays(records, prefix) + {date} else DoneDays(records, prefix) - {date}
  {
  }

  /** Marking a date of another month leaves the month's counts alone. */
  lemma MarkOtherMonth(records: map<string, bool>, prefix: string, date: string, value: bool)
    requires !IsPrefix(prefix, date)
    ensures MonthDays(records[date := value], prefix) == MonthDays(records, prefix)
    ensures DoneDays(records[date := value], prefix) == DoneDays(records, prefix)
  {
  }

  /** The habits of a map filed under their names, each once, in an arbitrary order. */
  method CollectValues(hs: map<string, Habit>) returns (vals: seq<Habit>)
    requires Named(hs)
    ensures |vals| == |hs| && Distinct(vals)
    ensures forall h :: h in vals ==> h.name in hs && hs[h.name] == h
    ensures forall h :: h in vals <==> h in hs.Values
  {
    vals := [];
    var rest := hs.Keys;
    while rest != {}
      invariant rest <= hs.Keys
      invariant |vals| + |rest| == |hs|
      invariant Distinct(vals)
      invariant forall i :: 0 <= i < |vals| ==> vals[i].name in hs && hs[vals[i].name] == vals[i] && vals[i].name !in rest
      invariant forall k :: k in hs && k !in rest ==> hs[k] in vals
      decreases rest
    {
      var k :| k in rest;
      vals := vals + [hs[k]];
      rest := rest - {k};
    }
  }

  /** Sorted by name, without repeats, each habit filed under its name: the names strictly ascend. */
  lemma StrictByName(r: seq<Habit>, hs: map<string, Habit>)
    requires Sorted(r, ByKey(ByName, false)) && Distinct(r)
    requires forall h :: h in r ==> h.name in hs && hs[h.name] == h
    ensures forall i, j :: 0 <= i < j < |r| ==> StrLt(r[i].name, r[j].name)
  {
    forall i, j | 0 <= i < j < |r|
      ensures StrLt(r[i].name, r[j].name)
    {
      ByNameOrder(r[j], r[i]);
      if r[i].name != r[j].name {
        StrLtTotal(r[i].name, r[j].name);
      }
    }
  }

  class HabitTracker {
    var habits: map<string, Habit>
    /** What `habits.json` parses to; each `_save` writes the current records there. */
    ghost var persisted: Option<map<string, map<string, bool>>>

    ghost predicate Valid()
      reads this
    {
      Named(habits) && Load(persisted) == habits
    }

    constructor(stored: Option<map<string, map<string, bool>>>)
      ensures habits == Load(stored) && persisted == stored
      ensures Valid()
    {
      habits := Load(stored);
      persisted := stored;
    }

    /** `setdefault`: a new habit starts without records, an existing one keeps its records; always saves. */
    method Add(name: string)
      modifies this
      ensures habits == old(habits)[name := Existing(old(habits), name)]
      ensures name in old(habits) ==> habits == old(habits)
      ensures persisted == Some(Payload(habits))
      ensures old(Valid()) ==> Valid()
    {
      if name !in habits {
        habits := habits[name := Habit(name, map[])];
      }
      persisted := Some(Payload(habits));
      if Named(habits) {
        LoadPayload(habits);
      }
    }

    /** Sets the record of `date` (today when none is given), creating the habit first if needed; always saves. */
    method Mark(name: string, date: Option<string>, value: bool, today: string)
      modifies this
      ensures var h := Existing(old(habits), name);
        habits == old(habits)[name := h.(records := h.records[DateOr(date, today) := value])]
      ensures persisted == Some(Payload(habits))
      ensures old(Valid()) ==> Valid()
    {
      if name !in habits {
        habits := habits[name := Habit(name, map[])];
      }
      var d := if date.Some? && date.value != "" then date.value else today;
      var h := habits[name];
      habits := habits[name := h.(records := h.records[d := value])];
      persisted := Some(Payload(habits));
      if Named(habits) {
        LoadPayload(habits);
      }
    }

    /** `list`: every habit once, in ascending order of name. */
    method List() returns (r: seq<Habit>)
      requires Valid()
      ensures |r| == |habits|
      ensures forall h :: h in r <==> h in habits.Values
      ensures forall i, j :: 0 <= i < j < |r| ==> StrLt(r[i].name, r[j].name)
    {
      var vals := CollectValues(habits);
      r := SortByKey(vals, ByName, false);
      DistinctPermutation(r, vals);
      assert forall h :: h in r <==> h in multiset(vals);
      assert forall h :: h in r ==> h in vals;
      StrictByName(r, habits);
    }
  }
}
