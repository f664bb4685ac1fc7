/** The 14-day completion history the dashboard attaches to every habit: a
    0/1 sequence, oldest day first, ending at the anchor date. */
module History {
  import opened Domain
  import opened Database

  /** The number of days in the history window. */
  const WindowSize: nat := 14

  /** `$habit->entries()->...->keyBy('date')`: one habit's entries by date. */
  function EntriesByDate(entries: map<EntryKey, Entry>, habitId: int): (r: map<Day, Entry>)
    ensures forall d :: d in r <==> (habitId, d) in entries
    ensures forall d :: d in r ==> r[d] == entries[(habitId, d)]
  {
    map d | d in DatesOf(entries, habitId) :: entries[(habitId, d)]
  }

  /** The dates on which a habit has an entry. */
  function DatesOf(entries: map<EntryKey, Entry>, habitId: int): (r: set<Day>)
    ensures forall d :: d in r <==> (habitId, d) in entries
  {
    set k | k in entries && k.0 == habitId :: k.1
  }

  /** `whereBetween('date', [date - 13 days, date])`: the entries in the window. */
  function Window(byDate: map<Day, Entry>, date: Day): (r: map<Day, Entry>)
    ensures forall d :: d in r <==> d in byDate && date - (WindowSize - 1) <= d <= date
    ensures forall d :: d in r ==> r[d] == byDate[d]
  {
    map d | d in byDate && date - (WindowSize - 1) <= d <= date :: byDate[d]
  }

  /** The history bit of one day: 1 exactly when an entry for that day exists
      and its status is completed; no entry, pending and skipped all give 0. */
  function Bit(byDate: map<Day, Entry>, d: Day): (b: int)
    ensures b == 1 <==> d in byDate && byDate[d].status == Completed
    ensures b == 0 || b == 1
  {
    if d in byDate && byDate[d].status == Completed then 1 else 0
  }

  /** The bits of the `n` days ending at `last`, oldest first: element `k`
      belongs to day `last - (n - 1 - k)`, so the final element is `last`. */
  function HistoryEnding(byDate: map<Day, Entry>, last: Day, n: nat): (h: seq<int>)
    ensures |h| == n
    ensures forall k :: 0 <= k < n ==> h[k] == Bit(byDate, last - (n - 1 - k))
  {
    var h := seq(n, k requires 0 <= k < n => Bit(byDate, last - (n - 1 - k)));
    assert forall k :: 0 <= k < n ==> h[k] == Bit(byDate, last - (n - 1 - k));
    h
  }

  /** One more day of history is the history up to the day before, followed
      by that day's bit. */
  lemma HistoryEndingSnoc(byDate: map<Day, Entry>, last: Day, n: nat)
    ensures HistoryEnding(byDate, last, n + 1) == HistoryEnding(byDate, last - 1, n) + [Bit(byDate, last)]
  {
    var longer, shorter := HistoryEnding(byDate, last, n + 1), HistoryEnding(byDate, last - 1, n);
    forall k | 0 <= k < n ensures longer[k] == shorter[k] {
      assert last - (n - k) == last - 1 - (n - 1 - k);
    }
  }

  /** The history bit of a habit's entry for day `d`: 1 exactly when that
      entry exists and is completed. */
  function EntryBit(entries: map<EntryKey, Entry>, habitId: int, d: Day): (b: int)
    ensures b == 1 <==> (habitId, d) in entries && entries[(habitId, d)].status == Completed
    ensures b == 0 || b == 1
  {
    if (habitId, d) in entries && entries[(habitId, d)].status == Completed then 1 else 0
  }

  /** The `history` array the dashboard returns for a habit and an anchor
      date: fourteen bits, cell `k` for day `date - (13 - k)`. */
  function ProjectedHistory(entries: map<EntryKey, Entry>, habitId: int, date: Day): (h: seq<int>)
    ensures |h| == WindowSize
    ensures forall k :: 0 <= k < WindowSize ==>
      (h[k] == 1 <==> (habitId, date - (WindowSize - 1 - k)) in entries
                      && entries[(habitId, date - (WindowSize - 1 - k))].status == Completed)
    ensures forall k :: 0 <= k < WindowSize ==> h[k] == 0 || h[k] == 1
  {
    var h := seq(WindowSize, k requires 0 <= k < WindowSize => EntryBit(entries, habitId, date - (WindowSize - 1 - k)));
    assert forall k :: 0 <= k < WindowSize ==> h[k] == EntryBit(entries, habitId, date - (WindowSize - 1 - k));
    h
  }

  /** Keying a habit's entries by date and reading the fourteen days ending
      at `date` gives the projected history. */
  lemma KeyedHistory(entries: map<EntryKey, Entry>, habitId: int, date: Day)
    ensures HistoryEnding(EntriesByDate(entries, habitId), date, WindowSize) == ProjectedHistory(entries, habitId, date)
  {
    var byDate := EntriesByDate(entries, habitId);
    forall d ensures Bit(byDate, d) == EntryBit(entries, habitId, d) {
      KeyedBit(entries, habitId, d);
    }
    SameBitsSameHistory(byDate, entries, habitId, date);
  }

  /** A day-keyed map whose bits agree with the table's gives the projected
      history. */
  lemma SameBitsSameHistory(byDate: map<Day, Entry>, entries: map<EntryKey, Entry>, habitId: int, date: Day)
    requires forall d :: Bit(byDate, d) == EntryBit(entries, habitId, d)
    ensures HistoryEnding(byDate, date, WindowSize) == ProjectedHistory(entries, habitId, date)
  {
    var h, p := HistoryEnding(byDate, date, WindowSize), ProjectedHistory(entries, habitId, date);
    forall k | 0 <= k < WindowSize ensures h[k] == p[k] {
      var d := date - (WindowSize - 1 - k);
      assert h[k] == Bit(byDate, d);
      assert p[k] == EntryBit(entries, habitId, d);
    }
  }

  /** One day's bit is the same read from the keyed entries or from the
      table. */
  lemma KeyedBit(entries: map<EntryKey, Entry>, habitId: int, d: Day)
    ensures Bit(EntriesByDate(entries, habitId), d) == EntryBit(entries, habitId, d)
  {
  }

  /** The history loop of the dashboard: `i` counts down from 13 to 0 and the
      bit of day `date - i` is appended each time. */
  method BuildHistory(historyEntries: map<Day, Entry>, date: Day) returns (history: seq<int>)
    ensures history == HistoryEnding(historyEntries, date, WindowSize)
  {
    history := [];
    var i: int := WindowSize as int - 1;
    while i >= 0
      invariant -1 <= i <= WindowSize as int - 1
      invariant history == HistoryEnding(historyEntries, date - 1 - i, WindowSize - 1 - i)
    {
      var d := date - i;
      var bit := if d in historyEntries && historyEntries[d].status == Completed then 1 else 0;
      HistoryEndingSnoc(historyEntries, d, WindowSize - 1 - i);
      history := history + [bit];
      i := i - 1;
    }
  }

  /** Only entries dated within [date - 13, date] influence the history: two
      entry sets that agree on the window give the same history. */
  lemma {:induction false} AgreeOnWindow(a: map<Day, Entry>, b: map<Day, Entry>, date: Day)
    requires forall d :: date - (WindowSize - 1) <= d <= date ==> Bit(a, d) == Bit(b, d)
    ensures HistoryEnding(a, date, WindowSize) == HistoryEnding(b, date, WindowSize)
  {
    var ha, hb := HistoryEnding(a, date, WindowSize), HistoryEnding(b, date, WindowSize);
    forall k | 0 <= k < WindowSize ensures ha[k] == hb[k] {
      var d := date - (WindowSize - 1 - k);
      assert Bit(a, d) == Bit(b, d);
    }
  }

  /** In particular the range query loses nothing: the loop over the window
      gives the history of all the habit's entries. */
  lemma WindowSuffices(byDate: map<Day, Entry>, date: Day)
    ensures HistoryEnding(Window(byDate, date), date, WindowSize) == HistoryEnding(byDate, date, WindowSize)
  {
    AgreeOnWindow(Window(byDate, date), byDate, date);
  }

  /** With no completed entry in the window the history is fourteen zeros. */
  lemma {:induction false} NoCompletionsNoBits(byDate: map<Day, Entry>, date: Day)
    requires forall d :: d in byDate && date - (WindowSize - 1) <= d <= date ==> byDate[d].status != Completed
    ensures HistoryEnding(byDate, date, WindowSize) == seq(WindowSize, _ => 0)
  {
    AgreeOnWindow(byDate, map[], date);
    var h := HistoryEnding(map[], date, WindowSize);
    assert forall k :: 0 <= k < WindowSize ==> h[k] == 0;
  }
}
