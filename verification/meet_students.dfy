/** The home page's "Meet our students" strip: which three students are
    shown, and what each card falls back to. */
module MeetStudents {
  import opened Text
  import opened Entities
  import Seqs
  import ImageUtils

  const Shown: nat := 3

  function IsFeatured(s: Student): bool { s.featured }

  /** Featured students first, then the rest, each group in fetched order,
      cut to the first three. */
  function SelectStudents(students: seq<Student>): (r: seq<Student>)
    ensures |r| == if |students| < Shown then |students| else Shown
    ensures multiset(r) <= multiset(students)
    ensures forall i, j :: 0 <= i < j < |r| && r[j].featured ==> r[i].featured
  {
    var featured := Seqs.Filter(students, IsFeatured, true);
    var regular := Seqs.Filter(students, IsFeatured, false);
    var m := if |students| < Shown then |students| else Shown;
    SelectionFacts(featured, regular, students, m);
    (featured + regular)[..m]
  }

  lemma SelectionFacts(featured: seq<Student>, regular: seq<Student>, students: seq<Student>, m: nat)
    requires featured == Seqs.Filter(students, IsFeatured, true)
    requires regular == Seqs.Filter(students, IsFeatured, false)
    requires m <= |students|
    ensures m <= |featured + regular|
    ensures multiset((featured + regular)[..m]) <= multiset(students)
    ensures var r := (featured + regular)[..m];
            forall i, j :: 0 <= i < j < |r| && r[j].featured ==> r[i].featured
  {
    Seqs.FilterPartition(students, IsFeatured);
    PrefixMultiset(featured + regular, m);
    FeaturedFirst(featured, regular, m);
  }

  lemma PrefixMultiset<T>(s: seq<T>, m: nat)
    requires m <= |s|
    ensures multiset(s[..m]) <= multiset(s)
  {
    assert s == s[..m] + s[m..];
  }

  lemma FeaturedFirst(featured: seq<Student>, regular: seq<Student>, m: nat)
    requires forall i :: 0 <= i < |featured| ==> featured[i].featured
    requires forall i :: 0 <= i < |regular| ==> !regular[i].featured
    requires m <= |featured| + |regular|
    ensures var r := (featured + regular)[..m];
            forall i, j :: 0 <= i < j < |r| && r[j].featured ==> r[i].featured
  {
  }

  /** Within each group the selection keeps the fetched order: its featured
      students are the first featured ones fetched, and its regular students
      the first regular ones. */
  lemma SelectionKeepsOrder(students: seq<Student>)
    ensures var r := SelectStudents(students);
            var f := Seqs.Filter(r, IsFeatured, true);
            var g := Seqs.Filter(r, IsFeatured, false);
            && f <= Seqs.Filter(students, IsFeatured, true)
            && g <= Seqs.Filter(students, IsFeatured, false)
  {
    var featured := Seqs.Filter(students, IsFeatured, true);
    var regular := Seqs.Filter(students, IsFeatured, false);
    Seqs.FilterPartition(students, IsFeatured);
    var m := |SelectStudents(students)|;
    assert SelectStudents(students) == (featured + regular)[..m];
    PartitionPrefix(featured, regular, IsFeatured, m);
  }

  /** Cutting a partition (passing elements, then failing ones) after `m`
      elements and filtering again gives back a prefix of each half. */
  lemma PartitionPrefix<T>(pass: seq<T>, fail: seq<T>, p: T -> bool, m: nat)
    requires forall i :: 0 <= i < |pass| ==> p(pass[i])
    requires forall i :: 0 <= i < |fail| ==> !p(fail[i])
    requires m <= |pass| + |fail|
    ensures var f := Seqs.Filter((pass + fail)[..m], p, true);
            var g := Seqs.Filter((pass + fail)[..m], p, false);
            f <= pass && g <= fail
  {
    if m <= |pass| {
      assert (pass + fail)[..m] == pass[..m];
      CutInsidePass(pass, p, m);
    } else {
      var tail := fail[..m - |pass|];
      assert (pass + fail)[..m] == pass + tail;
      CutInsideFail(pass, tail, p);
    }
  }

  lemma CutInsidePass<T>(pass: seq<T>, p: T -> bool, m: nat)
    requires forall i :: 0 <= i < |pass| ==> p(pass[i])
    requires m <= |pass|
    ensures Seqs.Filter(pass[..m], p, true) == pass[..m]
    ensures Seqs.Filter(pass[..m], p, false) == []
  {
    Seqs.FilterKeepsAll(pass[..m], p, true);
    Seqs.FilterDropsAll(pass[..m], p, false);
  }

  lemma CutInsideFail<T>(pass: seq<T>, tail: seq<T>, p: T -> bool)
    requires forall i :: 0 <= i < |pass| ==> p(pass[i])
    requires forall i :: 0 <= i < |tail| ==> !p(tail[i])
    ensures Seqs.Filter(pass + tail, p, true) == pass
    ensures Seqs.Filter(pass + tail, p, false) == tail
  {
    Seqs.FilterAppend(pass, tail, p, true);
    Seqs.FilterAppend(pass, tail, p, false);
    Seqs.FilterKeepsAll(pass, p, true);
    Seqs.FilterDropsAll(pass, p, false);
    Seqs.FilterKeepsAll(tail, p, false);
    Seqs.FilterDropsAll(tail, p, true);
    assert pass + [] == pass;
    assert [] + tail == tail;
  }

  /** A featured student is left out only when three featured students are
      already shown; so three or more featured students fill the strip. */
  lemma FeaturedNotDisplaced(students: seq<Student>, x: Student)
    requires x in students && x.featured && x !in SelectStudents(students)
    ensures var r := SelectStudents(students);
            |r| == Shown && forall i :: 0 <= i < |r| ==> r[i].featured
  {
    var featured := Seqs.Filter(students, IsFeatured, true);
    var regular := Seqs.Filter(students, IsFeatured, false);
    Seqs.FilterPartition(students, IsFeatured);
    var k :| 0 <= k < |students| && students[k] == x;
    assert IsFeatured(students[k]);
    assert x in featured;
    var m := |SelectStudents(students)|;
    assert SelectStudents(students) == (featured + regular)[..m];
    PrefixMissing(featured, regular, m, x);
  }

  /** An element of the first half missing from a prefix of `a + b` means
      the prefix lies inside `a` and is shorter than `a`. */
  lemma PrefixMissing<T>(a: seq<T>, b: seq<T>, m: nat, x: T)
    requires m <= |a| + |b| && x in a && x !in (a + b)[..m]
    ensures m < |a| && (a + b)[..m] == a[..m]
  {
    if m >= |a| {
      PrefixHoldsFirstHalf(a, b, m);
    }
  }

  lemma PrefixHoldsFirstHalf<T>(a: seq<T>, b: seq<T>, m: nat)
    requires |a| <= m <= |a| + |b|
    ensures forall i :: 0 <= i < |a| ==> a[i] in (a + b)[..m]
  {
    forall i | 0 <= i < |a|
      ensures a[i] in (a + b)[..m]
    {
      assert (a + b)[..m][i] == a[i];
    }
  }

  /** Three or more featured students: only featured students are shown. */
  lemma AllFeaturedWhenEnough(students: seq<Student>)
    requires |Seqs.Filter(students, IsFeatured, true)| >= Shown
    ensures var r := SelectStudents(students);
            |r| == Shown && forall i :: 0 <= i < |r| ==> r[i].featured
  {
    Seqs.FilterPartition(students, IsFeatured);
  }

  // ---------------------------------------------------------------------------
  // Cards
  // ---------------------------------------------------------------------------

  const DefaultImages: seq<string> := ["👨‍🎓", "👩‍🎓", "👨‍💼", "👩‍💼"]
  const Icons: seq<Icon> := [Trophy, Star, GraduationCap]
  const Colors: seq<string> := ["from-yellow-500 to-orange-600", "from-cyan-500 to-blue-600", "from-purple-500 to-pink-600"]

  /** `getDefaultImage`, `getIconForIndex`, `getColorForIndex`: each list
      read cyclically by the card's index. */
  function DefaultImage(index: nat): string {
    DefaultImages[index % |DefaultImages|]
  }

  function IconAt(index: nat): Icon {
    Icons[index % |Icons|]
  }

  function ColorAt(index: nat): string {
    Colors[index % |Colors|]
  }

  /** Default images repeat every four cards, icons and colours every three;
      within one period they are all different. */
  lemma Cycles(index: nat)
    ensures DefaultImage(index + 4) == DefaultImage(index)
    ensures IconAt(index + 3) == IconAt(index) && ColorAt(index + 3) == ColorAt(index)
    ensures forall j :: index < j < index + 3 ==> IconAt(j) != IconAt(index) && ColorAt(j) != ColorAt(index)
    ensures forall j :: index < j < index + 4 ==> DefaultImage(j) != DefaultImage(index)
  {
    assert (index + 4) % 4 == index % 4;
    assert (index + 3) % 3 == index % 3;
  }

  datatype Card = Card(name: string, title: string, program: string, rating: string,
                       achievement: string, image: string, icon: Icon, color: string)

  /** One student's card at position `index`. */
  function MakeCard(s: Student, index: nat): (c: Card)
    ensures c.name == s.name && c.title == s.title && c.program == s.program && c.rating == s.rating
    ensures c.achievement == HeadlineAchievement(s)
    ensures c.image == (if s.image.Some? && s.image.value != "" then s.image.value else DefaultImage(index))
    ensures c.icon == IconAt(index) && c.color == ColorAt(index)
  {
    Card(s.name, s.title, s.program, s.rating, HeadlineAchievement(s),
         if s.image.Some? && s.image.value != "" then s.image.value else DefaultImage(index),
         IconAt(index), ColorAt(index))
  }

  /** The fallback strip shown when the fetch fails. */
  const FallbackCards: seq<Card> := [
    Card("David Rodriguez", "FIDE Master", "Elite Training Graduate", "2380",
         "Gained 400 rating points in 18 months", "👨‍🎓", Trophy, "from-yellow-500 to-orange-600"),
    Card("Emma Thompson", "National Champion", "Tactical Mastery Graduate", "2150",
         "Won National Championship", "👩‍🎓", Star, "from-cyan-500 to-blue-600"),
    Card("Alex Kim", "Candidate Master", "Foundation to Elite Journey", "2050",
         "0 to 2050 rating in 2 years", "👨‍💼", GraduationCap, "from-purple-500 to-pink-600")]

  /** The strip: the selected students' cards, or the fallback when the
      fetch fails (`None`). */
  function Strip(fetched: Option<seq<Student>>): (cards: seq<Card>)
    ensures |cards| <= Shown
    ensures fetched.None? ==> cards == FallbackCards
    ensures forall i :: 0 <= i < |cards| ==> cards[i].icon == IconAt(i) && cards[i].color == ColorAt(i)
    ensures fetched.Some? ==>
              |cards| == |SelectStudents(fetched.value)| &&
              forall i :: 0 <= i < |cards| ==> cards[i] == MakeCard(SelectStudents(fetched.value)[i], i)
  {
    match fetched
    case None => FallbackCards
    case Some(students) =>
      var selected := SelectStudents(students);
      seq(|selected|, i requires 0 <= i < |selected| => MakeCard(selected[i], i))
  }

  /** No two cards of a strip share an icon or a colour, fetched or not. */
  lemma StripIconsDistinct(fetched: Option<seq<Student>>, i: nat, j: nat)
    requires i < j < |Strip(fetched)|
    ensures Strip(fetched)[i].icon != Strip(fetched)[j].icon
    ensures Strip(fetched)[i].color != Strip(fetched)[j].color
  {
    assert j < Shown;
    FirstPeriodDistinct(i, j);
  }

  lemma FirstPeriodDistinct(i: nat, j: nat)
    requires i < j < |Icons|
    ensures IconAt(i) != IconAt(j) && ColorAt(i) != ColorAt(j)
  {
    assert i % 3 == i && j % 3 == j;
  }

  /** The fallback strip follows the same cycles as a fetched one. */
  lemma FallbackFollowsCycle(i: nat)
    requires i < |FallbackCards|
    ensures FallbackCards[i].icon == IconAt(i) && FallbackCards[i].color == ColorAt(i)
    ensures FallbackCards[i].image == DefaultImage(i)
  {
  }

  /** The placeholder drawn where a card's image is not a usable URL. */
  const Placeholder: string := "👤"

  /** The avatar: an `<img>` only when the card's image is a valid image URL,
      otherwise the placeholder. */
  function Avatar(c: Card): (r: ImageUtils.Rendering<string>)
    ensures r.Img? <==> ImageUtils.IsValidImageUrl(Some(c.image))
    ensures r.Img? ==> r.src == Some(c.image)
    ensures r.Fallback? ==> r.content == Some(Placeholder)
  {
    if c.image != "" && ImageUtils.IsValidImageUrl(Some(c.image)) then ImageUtils.Img(Some(c.image))
    else ImageUtils.Fallback(Some(Placeholder))
  }

  /** The default emoji images are never valid image URLs, so a student with
      no image shows the placeholder, not the emoji picked for the card. */
  lemma DefaultImageNeverDrawn(s: Student, index: nat)
    requires s.image.None? || s.image == Some("")
    ensures Avatar(MakeCard(s, index)) == ImageUtils.Fallback(Some(Placeholder))
  {
    var img := DefaultImage(index);
    assert |img| == 3;
    assert img[0] != '/' && img[0] != 'h';
    if Contains(img, ImageUtils.CloudinaryHost) {
      ContainsLength(img, ImageUtils.CloudinaryHost);
    }
  }
}
