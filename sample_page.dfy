/** The sample variant of the dashboard page: the same actions over the
    same mock habits, kept without any history. */
module SamplePage {
  import opened Domain
  import opened ClientHabits

  /** The mock habits the sample page starts from; none has a history. */
  function MockHabits(): (hs: seq<ClientHabit>)
    ensures |hs| == 5
    ensures forall i :: 0 <= i < |hs| ==> hs[i].history == None
    ensures forall i, j :: 0 <= i < j < |hs| ==> hs[i].id != hs[j].id
  {
    [ ClientHabit(1, "Morning Yoga", None, "morning", "Daily", "07:00", true, "sun", Completed, "Felt stiff today.", None),
      ClientHabit(2, "Hydrate", None, "morning", "Daily", "500ml", false, "drop", Pending, "", None),
      ClientHabit(3, "Deep Work", None, "afternoon", "Daily", "2 Hours", false, "book", Skipped, "Headache, took a break.", None),
      ClientHabit(4, "Matcha Break", None, "afternoon", "Daily", "15:00", true, "coffee", Pending, "", None),
      ClientHabit(5, "Skincare", None, "evening", "Daily", "20 min", false, "moon", Pending, "", None) ]
  }

  class DashboardBotanical {
    var habits: seq<ClientHabit>

    /** No habit on this page carries a history. */
    ghost predicate Valid()
      reads this
    {
      forall i :: 0 <= i < |habits| ==> habits[i].history == None
    }

    constructor ()
      ensures Valid()
      ensures habits == MockHabits()
    {
      habits := MockHabits();
    }

    /** `toggleComplete(id)`. */
    method ToggleComplete(id: int)
      requires Valid()
      modifies this
      ensures Valid()
      ensures habits == ClientHabits.ToggleComplete(old(habits), id)
    {
      habits := ClientHabits.ToggleComplete(habits, id);
    }

    /** `toggleSkip(id)`. */
    method ToggleSkip(id: int)
      requires Valid()
      modifies this
      ensures Valid()
      ensures habits == ClientHabits.ToggleSkip(old(habits), id)
    {
      habits := ClientHabits.ToggleSkip(habits, id);
    }

    /** `deleteHabit(id)`. */
    method DeleteHabit(id: int)
      requires Valid()
      modifies this
      ensures Valid()
      ensures habits == ClientHabits.DeleteHabit(old(habits), id)
    {
      ghost var before := habits;
      habits := ClientHabits.DeleteHabit(habits, id);
      forall i | 0 <= i < |habits| ensures habits[i].history == None {
        var j :| 0 <= j < |before| && before[j] == habits[i];
      }
    }

    /** `handleAddHabit(newHabit)`, with `freshId` standing for `Date.now()`:
        one pending habit with an empty note and no history is appended. */
    method HandleAddHabit(newHabit: HabitForm, freshId: int)
      requires Valid()
      modifies this
      ensures Valid()
      ensures habits == AddHabit(old(habits), newHabit, freshId, None)
    {
      habits := AddHabit(habits, newHabit, freshId, None);
    }
  }
}
