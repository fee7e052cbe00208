/** The home page's testimonial carousel: each student becomes one
    testimonial, and the carousel's index advances on a timer or jumps to a
    clicked dot. */
module Testimonials {
  import opened Text
  import opened Entities

  const Icons: seq<Icon> := [TrendingUp, Star, Trophy, Award]
  const Colors: seq<string> := ["from-green-500 to-emerald-600", "from-blue-500 to-cyan-600",
                                "from-purple-500 to-pink-600", "from-orange-500 to-red-600"]

  /** `getIconForIndex` and `getColorForIndex`: both read by `index % 4`. */
  function IconAt(index: nat): Icon {
    Icons[index % |Icons|]
  }

  function ColorAt(index: nat): string {
    Colors[index % |Colors|]
  }

  datatype Testimonial = Testimonial(name: string, title: string, rating: string, quote: string,
                                     achievement: string, icon: Icon, color: string)

  /** `students.map(...)`: one testimonial per student, in the same order,
      quoting the student's testimonial under their headline achievement. */
  function FromStudents(students: seq<Student>): (ts: seq<Testimonial>)
    ensures |ts| == |students|
    ensures forall i :: 0 <= i < |ts| ==>
              && ts[i].name == students[i].name && ts[i].title == students[i].title
              && ts[i].rating == students[i].rating && ts[i].quote == students[i].testimonial
              && ts[i].achievement == HeadlineAchievement(students[i])
              && ts[i].icon == IconAt(i) && ts[i].color == ColorAt(i)
  {
    seq(|students|, i requires 0 <= i < |students| =>
      Testimonial(students[i].name, students[i].title, students[i].rating, students[i].testimonial,
                  HeadlineAchievement(students[i]), IconAt(i), ColorAt(i)))
  }

  /** Mapping a concatenation maps each part, the second with shifted
      icons: the transform is a plain per-index map. */
  lemma {:induction false} FromStudentsAppend(a: seq<Student>, b: seq<Student>)
    ensures FromStudents(a + b)[..|a|] == FromStudents(a)
    ensures forall i :: 0 <= i < |b| ==>
              FromStudents(a + b)[|a| + i].quote == FromStudents(b)[i].quote &&
              FromStudents(a + b)[|a| + i].icon == IconAt(|a| + i)
  {
    var ab := FromStudents(a + b);
    var fa := FromStudents(a);
    assert forall i :: 0 <= i < |a| ==> (a + b)[i] == a[i];
    assert |ab[..|a|]| == |fa|;
    forall i | 0 <= i < |a|
      ensures ab[..|a|][i] == fa[i]
    {
      assert (a + b)[i] == a[i];
    }
    forall i | 0 <= i < |b|
      ensures ab[|a| + i].quote == FromStudents(b)[i].quote
    {
      assert (a + b)[|a| + i] == b[i];
    }
  }

  /** The fallback shown when the fetch fails. */
  const Fallback: seq<Testimonial> := [
    Testimonial("David Rodriguez", "FIDE Master", "2380",
      "The Aspire Chess Academy transformed my understanding of the game. The personalized coaching and cutting-edge analysis tools helped me achieve my FM title in just 18 months.",
      "Gained 400 rating points", TrendingUp, "from-green-500 to-emerald-600"),
    Testimonial("Emma Thompson", "National Champion", "2150",
      "The tactical training program here is unmatched. My pattern recognition improved dramatically, and I won my first national tournament within a year of joining.",
      "Won National Championship", Trophy, "from-yellow-500 to-orange-600"),
    Testimonial("Alex Kim", "Candidate Master", "2050",
      "From a complete beginner to CM level - the structured curriculum and supportive environment at Aspire made this incredible journey possible.",
      "0 to 2050 rating in 2 years", Star, "from-blue-500 to-cyan-600"),
    Testimonial("Maria Santos", "WIM", "2280",
      "The psychological training component sets Aspire apart. Learning to manage time pressure and maintain focus under stress was game-changing for my tournament performance.",
      "Women's International Master", Award, "from-purple-500 to-pink-600")]

  /** The carousel's list: the transformed students, or the fallback when
      the fetch fails (`None`). */
  function Load(fetched: Option<seq<Student>>): (ts: seq<Testimonial>)
    ensures fetched.None? ==> ts == Fallback
    ensures fetched.Some? ==> |ts| == |fetched.value|
    ensures fetched.Some? ==> ts == FromStudents(fetched.value)
  {
    match fetched
    case None => Fallback
    case Some(students) => FromStudents(students)
  }

  /** The fallback does not follow the index cycle: its second card has the
      trophy where a fetched second card has the star, and a colour the
      cycle never uses. */
  lemma FallbackOffCycle()
    ensures Fallback[1].icon == Trophy && IconAt(1) == Star
    ensures Fallback[1].color !in Colors
    ensures Fallback[0].icon == IconAt(0) && Fallback[3].icon == IconAt(3)
  {
  }

  // ---------------------------------------------------------------------------
  // Carousel
  // ---------------------------------------------------------------------------

  /** What moves the carousel: the five-second timer, or a click on dot `i`. */
  datatype Event = Tick | Dot(i: nat)

  /** One event. The timer only runs while there is a testimonial; a tick
      moves to the next one, wrapping from the last to the first. A dot
      selects its own index. */
  function Step(current: nat, len: nat, e: Event): (next: nat)
    ensures e.Dot? ==> next == e.i
    ensures e == Tick && len == 0 ==> next == current
    ensures e == Tick && len > 0 && current + 1 < len ==> next == current + 1
    ensures e == Tick && len > 0 && current + 1 == len ==> next == 0
    ensures e == Tick && len > 0 ==> next < len
  {
    match e
    case Dot(i) => i
    case Tick => if len > 0 then (current + 1) % len else current
  }

  /** Every event a rendered carousel can receive keeps the index in range. */
  lemma StepInRange(current: nat, len: nat, e: Event)
    requires current < len
    requires e.Dot? ==> e.i < len
    ensures Step(current, len, e) < len
  {
  }

  /** `k` ticks in a row. */
  function Ticks(current: nat, len: nat, k: nat): nat
    decreases k
  {
    if k == 0 then current else Step(Ticks(current, len, k - 1), len, Tick)
  }

  /** Ticks compose: `a` ticks then `b` ticks are `a + b` ticks. */
  lemma {:induction false} TicksAdd(current: nat, len: nat, a: nat, b: nat)
    ensures Ticks(current, len, a + b) == Ticks(Ticks(current, len, a), len, b)
    decreases b
  {
    if b > 0 {
      TicksAdd(current, len, a, b - 1);
    }
  }

  /** Before the wrap, ticks count up one by one. */
  lemma {:induction false} TicksCountUp(current: nat, len: nat, k: nat)
    requires current + k < len
    ensures Ticks(current, len, k) == current + k
    decreases k
  {
    if k > 0 {
      TicksCountUp(current, len, k - 1);
    }
  }

  /** From the last testimonial the carousel wraps to the first. */
  lemma TicksWrap(current: nat, len: nat)
    requires current < len
    ensures Ticks(current, len, len - current) == 0
  {
    TicksCountUp(current, len, len - current - 1);
  }

  /** `len` ticks bring the carousel back where it was, and every testimonial
      is shown within fewer than `len` ticks. */
  lemma TicksCycle(current: nat, len: nat, target: nat)
    requires current < len && target < len
    ensures Ticks(current, len, len) == current
    ensures exists k :: 0 <= k < len && Ticks(current, len, k) == target
  {
    TicksWrap(current, len);
    TicksAdd(current, len, len - current, current);
    TicksCountUp(0, len, current);
    if target >= current {
      TicksCountUp(current, len, target - current);
    } else {
      TicksAdd(current, len, len - current, target);
      TicksCountUp(0, len, target);
      assert Ticks(current, len, len - current + target) == target;
    }
  }
}
