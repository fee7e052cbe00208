/** The dashboard's overview: four counters computed from the full student
    and tournament lists, and the two short "recent" lists. */
module Dashboard {
  import opened Text
  import opened Entities
  import Seqs

  datatype Stats = Stats(totalStudents: nat, activeStudents: nat, totalTournaments: nat, upcomingTournaments: nat)

  /** The counters' initial value. */
  const NoStats: Stats := Stats(0, 0, 0, 0)

  function StudentActive(s: Student): bool { s.isActive }
  function TournamentUpcoming(t: Tournament): bool { t.status == "upcoming" }

  /** The counters for the full lists: their lengths, the active students and
      the tournaments whose status is "upcoming". */
  function ComputeStats(students: seq<Student>, tournaments: seq<Tournament>): (st: Stats)
    ensures st.totalStudents == |students| && st.totalTournaments == |tournaments|
    ensures st.activeStudents <= st.totalStudents && st.upcomingTournaments <= st.totalTournaments
    ensures st.activeStudents + |Seqs.Filter(students, StudentActive, false)| == st.totalStudents
    ensures st.upcomingTournaments + |Seqs.Filter(tournaments, TournamentUpcoming, false)| == st.totalTournaments
  {
    Seqs.FilterPartition(students, StudentActive);
    Seqs.FilterPartition(tournaments, TournamentUpcoming);
    Stats(|students|, Seqs.Count(students, StudentActive),
          |tournaments|, Seqs.Count(tournaments, TournamentUpcoming))
  }

  /** When every student is active and every tournament upcoming, each
      counter equals its total; when none is, it is zero. */
  lemma StatsExtremes(students: seq<Student>, tournaments: seq<Tournament>)
    ensures (forall i :: 0 <= i < |students| ==> students[i].isActive) ==>
              ComputeStats(students, tournaments).activeStudents == |students|
    ensures (forall i :: 0 <= i < |students| ==> !students[i].isActive) ==>
              ComputeStats(students, tournaments).activeStudents == 0
    ensures (forall i :: 0 <= i < |tournaments| ==> tournaments[i].status == "upcoming") ==>
              ComputeStats(students, tournaments).upcomingTournaments == |tournaments|
  {
    if forall i :: 0 <= i < |students| ==> students[i].isActive {
      Seqs.FilterKeepsAll(students, StudentActive, true);
    }
    if forall i :: 0 <= i < |students| ==> !students[i].isActive {
      Seqs.FilterDropsAll(students, StudentActive, true);
    }
    if forall i :: 0 <= i < |tournaments| ==> tournaments[i].status == "upcoming" {
      Seqs.FilterKeepsAll(tournaments, TournamentUpcoming, true);
    }
  }

  datatype Overview = Overview(stats: Stats, recentStudents: seq<Student>, upcoming: seq<Tournament>)

  /** The four requests run together; `None` is a failed one. One failure
      leaves everything at its initial value; otherwise the counters come
      from the two full lists and the recent lists are shown as fetched. */
  function Load(allStudents: Option<seq<Student>>, allTournaments: Option<seq<Tournament>>,
                recentStudents: Option<seq<Student>>, upcoming: Option<seq<Tournament>>): (o: Overview)
    ensures allStudents.None? || allTournaments.None? || recentStudents.None? || upcoming.None? ==>
              o == Overview(NoStats, [], [])
    ensures allStudents.Some? && allTournaments.Some? && recentStudents.Some? && upcoming.Some? ==>
              && o.stats.totalStudents == |allStudents.value|
              && o.stats.totalTournaments == |allTournaments.value|
              && o.recentStudents == recentStudents.value && o.upcoming == upcoming.value
  {
    if allStudents.None? || allTournaments.None? || recentStudents.None? || upcoming.None? then
      Overview(NoStats, [], [])
    else
      Overview(ComputeStats(allStudents.value, allTournaments.value), recentStudents.value, upcoming.value)
  }

  /** A failed short-list request zeroes the counters even though the full
      lists arrived. */
  lemma RecentFailureZeroesStats(all: seq<Student>, tours: seq<Tournament>, upcoming: Option<seq<Tournament>>)
    requires |all| > 0
    ensures Load(Some(all), Some(tours), None, upcoming).stats.totalStudents == 0
    ensures Load(Some(all), Some(tours), None, upcoming).stats != ComputeStats(all, tours)
  {
  }

  /** The counters never depend on the short lists. */
  lemma StatsIgnoreRecentLists(all: seq<Student>, tours: seq<Tournament>,
                               r1: seq<Student>, u1: seq<Tournament>, r2: seq<Student>, u2: seq<Tournament>)
    ensures Load(Some(all), Some(tours), Some(r1), Some(u1)).stats == Load(Some(all), Some(tours), Some(r2), Some(u2)).stats
    ensures Load(Some(all), Some(tours), Some(r1), Some(u1)).stats == ComputeStats(all, tours)
  {
  }
}
