/** The public tournaments page: which tournaments are listed as upcoming,
    the load error, the "% Full" bar, the category badge and the past
    tournaments' champion and participant figures. */
module PublicTournaments {
  import opened Text
  import opened Entities
  import Seqs
  import JsMath
  import Forms

  function IsActive(t: Tournament): bool { t.isActive }

  /** The upcoming list: the fetched tournaments that are active, in order. */
  function Upcoming(fetched: seq<Tournament>): (r: seq<Tournament>)
    ensures forall i :: 0 <= i < |r| ==> r[i].isActive && r[i] in fetched
    ensures forall i :: 0 <= i < |fetched| && fetched[i].isActive ==> fetched[i] in r
    ensures |r| <= |fetched|
    // in fetch order, with every copy of an active tournament and nothing else
    ensures Seqs.IsSubsequence(r, fetched)
    ensures forall t :: multiset(r)[t] == if t.isActive then multiset(fetched)[t] else 0
  {
    Seqs.FilterSubsequence(fetched, IsActive, true);
    Seqs.FilterMultiplicity(fetched, IsActive, true);
    Seqs.Filter(fetched, IsActive, true)
  }

  /** Order and multiplicity pin the list down: a list that keeps the fetch
      order and holds every copy of each active tournament and nothing else
      is the upcoming list. */
  lemma UpcomingUnique(fetched: seq<Tournament>, r: seq<Tournament>)
    requires Seqs.IsSubsequence(r, fetched)
    requires forall t :: multiset(r)[t] == if t.isActive then multiset(fetched)[t] else 0
    ensures r == Upcoming(fetched)
  {
    Seqs.FilterUnique(r, fetched, IsActive, true);
  }

  /** Listing an already listed selection changes nothing; with every
      tournament active the whole fetch is listed. */
  lemma UpcomingStable(fetched: seq<Tournament>)
    ensures Upcoming(Upcoming(fetched)) == Upcoming(fetched)
    ensures (forall i :: 0 <= i < |fetched| ==> fetched[i].isActive) ==> Upcoming(fetched) == fetched
  {
    Seqs.FilterIdempotent(fetched, IsActive, true);
    if forall i :: 0 <= i < |fetched| ==> fetched[i].isActive {
      Seqs.FilterKeepsAll(fetched, IsActive, true);
    }
  }

  const LoadError: string := "Failed to load tournaments. Please try again later."

  datatype Page = Page(upcoming: seq<Tournament>, past: seq<Tournament>, error: Option<string>)

  /** The two fetches in turn; `None` is a failed request. Either failure
      empties both lists and sets the error; the past list is fetched only
      after the upcoming one arrived. */
  function Load(upcoming: Option<seq<Tournament>>, past: Option<seq<Tournament>>): (p: Page)
    ensures p.error.Some? <==> upcoming.None? || past.None?
    ensures p.error.Some? ==> p == Page([], [], Some(LoadError))
    ensures p.error.None? ==> p.upcoming == Upcoming(upcoming.value) && p.past == past.value
  {
    if upcoming.None? || past.None? then Page([], [], Some(LoadError))
    else Page(Upcoming(upcoming.value), past.value, None)
  }

  // ---------------------------------------------------------------------------
  // Participation
  // ---------------------------------------------------------------------------

  /** `Math.round(current / max * 100)`; a zero maximum gives no number
      (`NaN` or `Infinity`), here `None`. */
  function ParticipationPercentage(current: int, max: int): (pct: Option<int>)
    ensures pct.None? <==> max == 0
    ensures max > 0 ==> 2 * max * pct.value - max <= 200 * current < 2 * max * pct.value + max
  {
    if max == 0 then None else Some(JsMath.Round(100 * current, max))
  }

  /** An empty tournament is 0% full and a full one 100%; in between the
      figure stays within [0, 100] and grows with the participant count. */
  lemma ParticipationBounds(current: int, other: int, max: int)
    requires max > 0 && 0 <= current <= other <= max
    ensures ParticipationPercentage(0, max) == Some(0)
    ensures ParticipationPercentage(max, max) == Some(100)
    ensures 0 <= ParticipationPercentage(current, max).value <= 100
    ensures ParticipationPercentage(current, max).value <= ParticipationPercentage(other, max).value
  {
    JsMath.RoundExact(0, max);
    JsMath.RoundExact(100, max);
    assert 100 * max == 100 * max;
    JsMath.RoundMonotone(0, 100 * current, max);
    JsMath.RoundMonotone(100 * current, 100 * other, max);
    JsMath.RoundMonotone(100 * other, 100 * max, max);
  }

  // ---------------------------------------------------------------------------
  // Category badge
  // ---------------------------------------------------------------------------

  const DefaultCategoryColor: string := "bg-gray-500/20 text-gray-400 border-gray-500/30"

  /** `getCategoryColor`: three categories have a colour of their own. */
  function CategoryColor(category: string): (c: string)
    ensures c == DefaultCategoryColor <==> category !in {"Open Tournament", "Youth (Under 18)", "Online Blitz"}
  {
    match category
    case "Open Tournament" => "bg-cyan-500/20 text-cyan-400 border-cyan-500/30"
    case "Youth (Under 18)" => "bg-green-500/20 text-green-400 border-green-500/30"
    case "Online Blitz" => "bg-purple-500/20 text-purple-400 border-purple-500/30"
    case _ => DefaultCategoryColor
  }

  /** The three named categories are told apart. */
  lemma CategoryColorsDistinct()
    ensures CategoryColor("Open Tournament") != CategoryColor("Youth (Under 18)")
    ensures CategoryColor("Open Tournament") != CategoryColor("Online Blitz")
    ensures CategoryColor("Youth (Under 18)") != CategoryColor("Online Blitz")
  {
  }

  // ---------------------------------------------------------------------------
  // Past tournaments
  // ---------------------------------------------------------------------------

  /** `tournament.winner || 'TBD'` */
  function Champion(t: Tournament): (name: string)
    ensures name != ""
    ensures t.winner.Some? && t.winner.value != "" ==> name == t.winner.value
    ensures t.winner.None? || t.winner == Some("") ==> name == "TBD"
  {
    if t.winner.Some? && t.winner.value != "" then t.winner.value else "TBD"
  }

  /** The winner as the page's object holds it: absent is `undefined`. */
  function WinnerValue(winner: Option<string>): Forms.Value {
    match winner
    case None => Forms.Undefined
    case Some(w) => Forms.Str(w)
  }

  /** The champion is exactly what `winner || 'TBD'` evaluates to. */
  lemma ChampionIsOr(t: Tournament)
    ensures Forms.Str(Champion(t)) == Forms.Or(WinnerValue(t.winner), Forms.Str("TBD"))
  {
  }

  datatype Participants = Count(n: int) | NotAvailable

  /** `finalParticipants || currentParticipants || 'N/A'`: the first non-zero
      count, where 0 stands for a missing figure too. */
  function PastParticipants(t: Tournament): (shown: Participants)
    ensures shown.Count? ==> shown.n != 0 && (shown.n == t.finalParticipants || shown.n == t.currentParticipants)
    ensures t.finalParticipants != 0 ==> shown == Count(t.finalParticipants)
    ensures shown == NotAvailable <==> t.finalParticipants == 0 && t.currentParticipants == 0
  {
    if t.finalParticipants != 0 then Count(t.finalParticipants)
    else if t.currentParticipants != 0 then Count(t.currentParticipants)
    else NotAvailable
  }

  /** The figure as the page renders it: a count, or the text "N/A". */
  function ParticipantsValue(shown: Participants): Forms.Value {
    match shown
    case Count(n) => Forms.Num(n)
    case NotAvailable => Forms.Str("N/A")
  }

  /** The participant figure is exactly what
      `finalParticipants || currentParticipants || 'N/A'` evaluates to. */
  lemma PastParticipantsIsOr(t: Tournament)
    ensures ParticipantsValue(PastParticipants(t))
            == Forms.Or(Forms.Or(Forms.Num(t.finalParticipants), Forms.Num(t.currentParticipants)), Forms.Str("N/A"))
  {
  }
}
