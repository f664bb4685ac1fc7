/** The main dashboard page: its `habits` state, seeded with the mock
    habits, and the four actions that replace it through `setHabits`. */
module DashboardPage {
  import opened Domain
  import opened Seqs
  import opened History
  import opened ClientHabits

  /** The mock habits the page starts from, each with a fourteen-day history. */
  function MockHabits(): (hs: seq<ClientHabit>)
    ensures |hs| == 5
    ensures forall i :: 0 <= i < |hs| ==> HasWindow(hs[i])
    ensures forall i, j :: 0 <= i < j < |hs| ==> hs[i].id != hs[j].id
  {
    [ ClientHabit(1, "Morning Yoga", None, "morning", "Daily", "07:00", true, "sun", Completed, "Felt stiff today.",
        Some([1,1,1,0,1,1,1,1,0,1,1,1,1,1])),
      ClientHabit(2, "Hydrate", None, "morning", "Daily", "500ml", false, "drop", Pending, "",
        Some([0,1,0,1,1,0,1,1,1,0,0,1,0,0])),
      ClientHabit(3, "Deep Work", None, "afternoon", "Daily", "2 Hours", false, "book", Skipped, "Headache, took a break.",
        Some([1,1,1,1,1,1,1,1,1,1,1,1,1,0])),
      ClientHabit(4, "Matcha Break", None, "afternoon", "Daily", "15:00", true, "coffee", Pending, "",
        Some([0,0,0,0,1,1,1,0,0,0,0,0,0,0])),
      ClientHabit(5, "Skincare", None, "evening", "Daily", "20 min", false, "moon", Pending, "",
        Some([1,1,1,1,1,1,1,1,1,1,1,1,1,1])) ]
  }

  /** The history `handleAddHabit` gives a new habit: fourteen zeros. */
  function FakeHistory(): (h: seq<int>)
    ensures |h| == WindowSize && forall k :: 0 <= k < |h| ==> h[k] == 0
  {
    seq(WindowSize, _ => 0)
  }

  class DashboardBotanical {
    var habits: seq<ClientHabit>

    /** Every habit on this page carries a full fourteen-cell history. */
    ghost predicate Valid()
      reads this
    {
      forall i :: 0 <= i < |habits| ==> HasWindow(habits[i])
    }

    constructor ()
      ensures Valid()
      ensures habits == MockHabits()
    {
      habits := MockHabits();
    }

    /** `toggleComplete(id)`. */
    method ToggleComplete(id: int)
      requires Valid()
      modifies this
      ensures Valid()
      ensures habits == ClientHabits.ToggleComplete(old(habits), id)
    {
      habits := ClientHabits.ToggleComplete(habits, id);
    }

    /** `toggleSkip(id)`. */
    method ToggleSkip(id: int)
      requires Valid()
      modifies this
      ensures Valid()
      ensures habits == ClientHabits.ToggleSkip(old(habits), id)
    {
      habits := ClientHabits.ToggleSkip(habits, id);
    }

    /** `deleteHabit(id)`. */
    method DeleteHabit(id: int)
      requires Valid()
      modifies this
      ensures Valid()
      ensures habits == ClientHabits.DeleteHabit(old(habits), id)
    {
      DeleteKeepsWindows(habits, id);
      habits := ClientHabits.DeleteHabit(habits, id);
    }

    /** `handleAddHabit(newHabit)`, with `freshId` standing for `Date.now()`:
        one pending habit with an empty note and fourteen zeros is appended. */
    method HandleAddHabit(newHabit: HabitForm, freshId: int)
      requires Valid()
      modifies this
      ensures Valid()
      ensures habits == AddHabit(old(habits), newHabit, freshId, Some(FakeHistory()))
    {
      habits := AddHabit(habits, newHabit, freshId, Some(FakeHistory()));
    }
  }

  /** On the mock data one habit of five is completed, so the ring shows 20. */
  lemma MockProgress()
    ensures CountCompleted(MockHabits()) == 1 && Progress(MockHabits()) == 20
  {
    var hs := MockHabits();
    assert CountCompleted(hs[1..]) == 0;
    assert Filter(hs, IsCompleted) == [hs[0]] + Filter(hs[1..], IsCompleted);
  }

  /** Every habit of this page has its history, so the grid card never falls
      back to random bits: it draws the last ten cells of the history. */
  lemma BarsIgnoreFallback(h: ClientHabit, fallback: seq<int>)
    requires HasWindow(h)
    ensures GridBars(h, fallback) == h.history.value[WindowSize - BarCount..]
  {
  }
}
