/** `get_process_uptime` of `src/utils/process.rs`: how long the daemon has
    been running, as `"{h}h {m}m {s}s"`, or a fixed text when that cannot be
    worked out. Running `ps`, the clock and `chrono`'s date parser are
    parameters. */
module Uptime {
  import opened Wrappers
  import opened Text
  import opened Commands

  const FALLBACK := "Unable to calculate time"

  /** The Portuguese weekday abbreviations `ps` prints in a `pt_BR` locale. */
  const WEEKDAYS: seq<(string, string)> := [
    ("dom", "Sun"), ("seg", "Mon"), ("ter", "Tue"), ("qua", "Wed"),
    ("qui", "Thu"), ("sex", "Fri"), ("sab", "Sat")
  ]

  /** The Portuguese month abbreviations. */
  const MONTHS: seq<(string, string)> := [
    ("jan", "Jan"), ("fev", "Feb"), ("mar", "Mar"), ("abr", "Apr"),
    ("mai", "May"), ("jun", "Jun"), ("jul", "Jul"), ("ago", "Aug"),
    ("set", "Sep"), ("out", "Oct"), ("nov", "Nov"), ("dez", "Dec")
  ]

  predicate NonEmptyKeys(table: seq<(string, string)>) {
    forall i :: 0 <= i < |table| ==> |table[i].0| > 0
  }

  /** One `replace` pass per row of `table`, in table order. */
  function ApplyTable(s: string, table: seq<(string, string)>): string
    requires NonEmptyKeys(table)
  {
    if table == [] then s
    else
      var last := table[|table| - 1];
      ReplaceAll(ApplyTable(s, table[..|table| - 1]), last.0, last.1)
  }

  /** All weekday passes, then all month passes. */
  function Normalize(s: string): string {
    ApplyTable(ApplyTable(s, WEEKDAYS), MONTHS)
  }

  /** The two `for` loops that rewrite `start_time_str` in place. */
  method NormalizeLocale(s: string) returns (t: string)
    ensures t == Normalize(s)
  {
    t := s;
    for i := 0 to |WEEKDAYS|
      invariant t == ApplyTable(s, WEEKDAYS[..i])
    {
      assert WEEKDAYS[..i + 1][..i] == WEEKDAYS[..i];
      t := ReplaceAll(t, WEEKDAYS[i].0, WEEKDAYS[i].1);
    }
    assert WEEKDAYS[..|WEEKDAYS|] == WEEKDAYS;
    var days := t;
    for i := 0 to |MONTHS|
      invariant t == ApplyTable(days, MONTHS[..i])
    {
      assert MONTHS[..i + 1][..i] == MONTHS[..i];
      t := ReplaceAll(t, MONTHS[i].0, MONTHS[i].1);
    }
    assert MONTHS[..|MONTHS|] == MONTHS;
  }

  predicate NoKeyOf(s: string, table: seq<(string, string)>) {
    forall i :: 0 <= i < |table| ==> !Contains(s, table[i].0)
  }

  /** Passes whose keys do not occur leave the text as it is. */
  lemma {:induction false} ApplyTableAbsent(s: string, table: seq<(string, string)>)
    requires NonEmptyKeys(table) && NoKeyOf(s, table)
    ensures ApplyTable(s, table) == s
    decreases |table|
  {
    if table != [] {
      var init := table[..|table| - 1];
      ApplyTableAbsent(s, init);
      ReplaceAbsent(s, table[|table| - 1].0, table[|table| - 1].1);
    }
  }

  /** Text with none of the nineteen Portuguese keys, such as what `ps`
      prints in an English locale, is not changed. */
  lemma NormalizeKeepsOtherText(s: string)
    requires NoKeyOf(s, WEEKDAYS) && NoKeyOf(s, MONTHS)
    ensures Normalize(s) == s
  {
    ApplyTableAbsent(s, WEEKDAYS);
    ApplyTableAbsent(s, MONTHS);
  }

  predicate SameLengthRows(table: seq<(string, string)>) {
    forall i :: 0 <= i < |table| ==> |table[i].1| == |table[i].0|
  }

  /** Passes that swap keys for texts of the same length keep the length. */
  lemma {:induction false} ApplyTableKeepsLength(s: string, table: seq<(string, string)>)
    requires NonEmptyKeys(table) && SameLengthRows(table)
    ensures |ApplyTable(s, table)| == |s|
    decreases |table|
  {
    if table != [] {
      var last := table[|table| - 1];
      ApplyTableKeepsLength(s, table[..|table| - 1]);
      ReplaceKeepsLength(ApplyTable(s, table[..|table| - 1]), last.0, last.1);
    }
  }

  /** Every Portuguese abbreviation becomes an English one of the same
      length, so the normalised start time is as long as what `ps` printed. */
  lemma NormalizeKeepsLength(s: string)
    ensures |Normalize(s)| == |s|
  {
    ApplyTableKeepsLength(s, WEEKDAYS);
    ApplyTableKeepsLength(ApplyTable(s, WEEKDAYS), MONTHS);
  }

  /** What the passes of `table` do to a text that is a single abbreviation:
      each row whose key is the text so far swaps in its value. */
  function Translate(w: string, table: seq<(string, string)>): string {
    if table == [] then w
    else
      var last := table[|table| - 1];
      var before := Translate(w, table[..|table| - 1]);
      if before == last.0 then last.1 else before
  }

  predicate RowsOfLength(table: seq<(string, string)>, n: nat) {
    forall i :: 0 <= i < |table| ==> |table[i].0| == n && |table[i].1| == n
  }

  /** On a word as long as every key and value, the `replace` passes act as
      `Translate`. */
  lemma {:induction false} ApplyTableWord(w: string, table: seq<(string, string)>)
    requires |w| > 0 && RowsOfLength(table, |w|)
    ensures NonEmptyKeys(table)
    ensures ApplyTable(w, table) == Translate(w, table)
    decreases |table|
  {
    if table != [] {
      var init := table[..|table| - 1];
      var last := table[|table| - 1];
      assert RowsOfLength(init, |w|) by {
        forall i | 0 <= i < |init| ensures |init[i].0| == |w| && |init[i].1| == |w| {
          assert init[i] == table[i];
        }
      }
      ApplyTableWord(w, init);
      assert |Translate(w, init)| == |w| by { TranslateLength(w, init); }
      ReplaceWhole(Translate(w, init), last.0, last.1);
    }
  }

  lemma {:induction false} TranslateLength(w: string, table: seq<(string, string)>)
    requires RowsOfLength(table, |w|)
    ensures |Translate(w, table)| == |w|
    decreases |table|
  {
    if table != [] {
      var init := table[..|table| - 1];
      assert RowsOfLength(init, |w|) by {
        forall i | 0 <= i < |init| ensures |init[i].0| == |w| && |init[i].1| == |w| {
          assert init[i] == table[i];
        }
      }
      TranslateLength(w, init);
    }
  }

  predicate NotKeyOf(w: string, table: seq<(string, string)>) {
    forall i :: 0 <= i < |table| ==> table[i].0 != w
  }

  /** A table read as a dictionary: no key twice and no value that is a key. */
  predicate Dictionary(table: seq<(string, string)>) {
    (forall i, j :: 0 <= i < j < |table| ==> table[i].0 != table[j].0) &&
    (forall i :: 0 <= i < |table| ==> NotKeyOf(table[i].1, table))
  }

  /** A word that is no key passes through unchanged. */
  lemma {:induction false} TranslateAbsent(w: string, table: seq<(string, string)>)
    requires NotKeyOf(w, table)
    ensures Translate(w, table) == w
    decreases |table|
  {
    if table != [] {
      var init := table[..|table| - 1];
      assert NotKeyOf(w, init) by {
        forall i | 0 <= i < |init| ensures init[i].0 != w {
          assert init[i] == table[i];
        }
      }
      TranslateAbsent(w, init);
    }
  }

  /** In a dictionary, a key comes out as its own value. */
  lemma {:induction false} TranslateKey(table: seq<(string, string)>, i: nat)
    requires Dictionary(table) && i < |table|
    ensures Translate(table[i].0, table) == table[i].1
    decreases |table|
  {
    var init := table[..|table| - 1];
    var last := table[|table| - 1];
    if i == |table| - 1 {
      assert NotKeyOf(last.0, init) by {
        forall k | 0 <= k < |init| ensures init[k].0 != last.0 {
          assert init[k] == table[k];
        }
      }
      TranslateAbsent(last.0, init);
    } else {
      assert Dictionary(init) by {
        forall k | 0 <= k < |init| ensures NotKeyOf(init[k].1, init) {
          assert NotKeyOf(table[k].1, table);
          forall m | 0 <= m < |init| ensures init[m].0 != init[k].1 {
            assert init[m] == table[m];
          }
        }
      }
      assert init[i] == table[i];
      TranslateKey(init, i);
      assert NotKeyOf(table[i].1, table);
    }
  }

  lemma WeekdaysAreDictionary()
    ensures RowsOfLength(WEEKDAYS, 3) && Dictionary(WEEKDAYS)
  {
    assert forall i, j :: 0 <= i < j < |WEEKDAYS| ==> WEEKDAYS[i].0 != WEEKDAYS[j].0 by {
      forall i, j | 0 <= i < j < |WEEKDAYS| ensures WEEKDAYS[i].0 != WEEKDAYS[j].0 {
        assert WeekdayKey(WEEKDAYS[i].0) == i && WeekdayKey(WEEKDAYS[j].0) == j;
      }
    }
    assert forall i :: 0 <= i < |WEEKDAYS| ==> NotKeyOf(WEEKDAYS[i].1, WEEKDAYS) by {
      forall i, k | 0 <= i < |WEEKDAYS| && 0 <= k < |WEEKDAYS| ensures WEEKDAYS[k].0 != WEEKDAYS[i].1 {
        assert 'a' <= WEEKDAYS[k].0[0] <= 'z' && 'A' <= WEEKDAYS[i].1[0] <= 'Z';
      }
    }
  }

  /** The row of a weekday key, read off its letters. */
  function WeekdayKey(w: string): int
    requires |w| == 3
  {
    match w[0]
    case 'd' => 0
    case 's' => if w[1] == 'a' then 6 else if w[2] == 'g' then 1 else 5
    case 't' => 2
    case _ => if w[2] == 'a' then 3 else 4
  }

  lemma MonthsAreDictionary()
    ensures RowsOfLength(MONTHS, 3) && Dictionary(MONTHS)
  {
    assert forall i, j :: 0 <= i < j < |MONTHS| ==> MONTHS[i].0 != MONTHS[j].0 by {
      forall i, j | 0 <= i < j < |MONTHS| ensures MONTHS[i].0 != MONTHS[j].0 {
        assert MonthKey(MONTHS[i].0) == i && MonthKey(MONTHS[j].0) == j;
      }
    }
    assert forall i :: 0 <= i < |MONTHS| ==> NotKeyOf(MONTHS[i].1, MONTHS) by {
      forall i, k | 0 <= i < |MONTHS| && 0 <= k < |MONTHS| ensures MONTHS[k].0 != MONTHS[i].1 {
        assert 'a' <= MONTHS[k].0[0] <= 'z' && 'A' <= MONTHS[i].1[0] <= 'Z';
      }
    }
  }

  /** The row of a month key, read off its letters. */
  function MonthKey(w: string): int
    requires |w| == 3
  {
    match w[0]
    case 'j' => if w[1] == 'a' then 0 else if w[2] == 'n' then 5 else 6
    case 'f' => 1
    case 'm' => if w[2] == 'r' then 2 else 4
    case 'a' => if w[1] == 'b' then 3 else 7
    case 's' => 8
    case 'o' => 9
    case 'n' => 10
    case _ => 11
  }

  /** A weekday word, in either language, is no month key, and a month key is
      no weekday key. */
  lemma TablesApart()
    ensures forall i :: 0 <= i < |WEEKDAYS| ==> NotKeyOf(WEEKDAYS[i].0, MONTHS) && NotKeyOf(WEEKDAYS[i].1, MONTHS)
    ensures forall j :: 0 <= j < |MONTHS| ==> NotKeyOf(MONTHS[j].0, WEEKDAYS)
  {
  }

  /** `ps` printing a lone Portuguese abbreviation: the weekday passes turn a
      weekday into its English name, which no month pass touches, and a month
      passes the weekday passes untouched and is then translated. */
  lemma NormalizeTranslates()
    ensures forall i :: 0 <= i < |WEEKDAYS| ==> Normalize(WEEKDAYS[i].0) == WEEKDAYS[i].1
    ensures forall j :: 0 <= j < |MONTHS| ==> Normalize(MONTHS[j].0) == MONTHS[j].1
  {
    WeekdaysAreDictionary();
    MonthsAreDictionary();
    TablesApart();
    forall i | 0 <= i < |WEEKDAYS| ensures Normalize(WEEKDAYS[i].0) == WEEKDAYS[i].1 {
      var w := WEEKDAYS[i].0;
      ApplyTableWord(w, WEEKDAYS);
      TranslateKey(WEEKDAYS, i);
      ApplyTableWord(WEEKDAYS[i].1, MONTHS);
      TranslateAbsent(WEEKDAYS[i].1, MONTHS);
    }
    forall j | 0 <= j < |MONTHS| ensures Normalize(MONTHS[j].0) == MONTHS[j].1 {
      var w := MONTHS[j].0;
      ApplyTableWord(w, WEEKDAYS);
      TranslateAbsent(w, WEEKDAYS);
      ApplyTableWord(w, MONTHS);
      TranslateKey(MONTHS, j);
    }
  }

  // ---------------------------------------------------------------------------
  // Hours, minutes, seconds

  /** Rust's `/` on `i64`: the quotient rounded toward zero. */
  function TruncDiv(a: int, b: int): int
    requires b > 0
  {
    if a >= 0 then a / b else -((-a) / b)
  }

  /** Rust's `%` on `i64`: the remainder takes the sign of `a`. */
  function TruncMod(a: int, b: int): (r: int)
    requires b > 0
    ensures a == b * TruncDiv(a, b) + r
    ensures a >= 0 ==> 0 <= r < b
    ensures a < 0 ==> -b < r <= 0
  {
    a - b * TruncDiv(a, b)
  }

  datatype Hms = Hms(hours: int, minutes: int, seconds: int)

  /** `hours = t / 3600`, `minutes = (t % 3600) / 60`, `seconds = t % 60`
      with Rust's truncating operators. */
  function Split(total: int): Hms {
    var rest := TruncMod(total, 3600);
    Hms(TruncDiv(total, 3600), TruncDiv(rest, 60), TruncMod(total, 60))
  }

  /** A natural number split by 3600 and then by 60 leaves the same seconds
      as splitting it by 60 at once. */
  lemma ModOfMod(a: nat)
    ensures (a % 3600) % 60 == a % 60
  {
    var q, r := a / 3600, a % 3600;
    var q2, sec := r / 60, r % 60;
    assert a == 3600 * q + r;
    assert r == 60 * q2 + sec;
    RemainderUnique(a, 60 * q + q2, sec);
  }

  /** The remainder by 60 is the only one in range. */
  lemma RemainderUnique(a: int, k: int, sec: int)
    requires a == 60 * k + sec && 0 <= sec < 60
    ensures a % 60 == sec
  {
  }

  /** The parts add back up to `total`, and each lies in its range with the
      sign of `total`. */
  lemma SplitParts(total: int)
    ensures var r := Split(total);
      r.hours * 3600 + r.minutes * 60 + r.seconds == total
    ensures var r := Split(total);
      total >= 0 ==> r.hours >= 0 && 0 <= r.minutes < 60 && 0 <= r.seconds < 60
    ensures var r := Split(total);
      total < 0 ==> r.hours <= 0 && -60 < r.minutes <= 0 && -60 < r.seconds <= 0
  {
    var a: nat := if total >= 0 then total else -total;
    ModOfMod(a);
    var rest := TruncMod(total, 3600);
    assert rest == 60 * TruncDiv(rest, 60) + TruncMod(rest, 60);
  }

  /** `format!("{}h {}m {}s", hours, minutes, seconds)`. */
  function Format(t: Hms): (r: string)
    ensures |r| > 0 && r[|r| - 1] == 's'
  {
    IntString(t.hours) + "h " + IntString(t.minutes) + "m " + IntString(t.seconds) + "s"
  }

  /** What `get_process_uptime` makes of the normalised `ps` output `text`:
      `parseStart` is `chrono`'s parse of the trimmed text into seconds,
      `now` the local clock in seconds. */
  function Elapsed(text: string, parseStart: string -> Option<int>, now: int): string {
    var parsed := parseStart(Trim(text));
    if parsed.None? then FALLBACK else Format(Split(now - parsed.value))
  }

  /** The text `get_process_uptime` returns; `ps` is what running
      `ps -p <pid> -o lstart=` gives. */
  function Uptime(pid: U32, ps: U32 -> Output, parseStart: string -> Option<int>, now: int): string {
    var out := ps(pid);
    if !out.success then FALLBACK else Elapsed(Normalize(out.stdout), parseStart, now)
  }

  /** `get_process_uptime`. */
  method GetProcessUptime(pid: U32, ps: U32 -> Output, parseStart: string -> Option<int>, now: int)
    returns (r: string)
    ensures r == Uptime(pid, ps, parseStart, now)
  {
    var out := ps(pid);
    if !out.success {
      return FALLBACK;
    }
    var text := NormalizeLocale(out.stdout);
    r := Elapsed(text, parseStart, now);
  }

  /** A formatted split never reads as the fixed text. */
  lemma FormatNotFallback(t: Hms)
    ensures Format(t) != FALLBACK
  {
    assert FALLBACK[|FALLBACK| - 1] == 'e';
  }

  /** The fixed text comes back exactly when `ps` failed or its output did not
      parse; otherwise the text is the split of the elapsed seconds. */
  lemma UptimeFallbackIff(pid: U32, ps: U32 -> Output, parseStart: string -> Option<int>, now: int)
    ensures var start := parseStart(Trim(Normalize(ps(pid).stdout)));
      Uptime(pid, ps, parseStart, now) == FALLBACK <==> !ps(pid).success || start.None?
    ensures var start := parseStart(Trim(Normalize(ps(pid).stdout)));
      ps(pid).success && start.Some? ==>
        Uptime(pid, ps, parseStart, now) == Format(Split(now - start.value))
  {
    var text := Normalize(ps(pid).stdout);
    var start := parseStart(Trim(text));
    if ps(pid).success && start.Some? {
      FormatNotFallback(Split(now - start.value));
    }
  }
}
