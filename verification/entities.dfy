/** The records the pages receive from the academy's API. Only the fields
    the modelled logic reads are kept. A field the API may omit is an
    `Option`. */
module Entities {
  import opened Text

  datatype Student = Student(
    name: string,
    title: string,
    program: string,
    rating: string,
    achievements: seq<string>,
    image: Option<string>,
    testimonial: string,
    bio: Option<string>,
    featured: bool,
    isActive: bool)

  datatype Tournament = Tournament(
    name: string,
    status: string,
    category: string,
    isActive: bool,
    currentParticipants: int,
    maxParticipants: int,
    finalParticipants: int,
    winner: Option<string>,
    posterImage: Option<string>,
    description: Option<string>)

  /** `createdAt` is the creation time in milliseconds since the epoch. */
  datatype Enrollment = Enrollment(
    id: string,
    name: string,
    contacted: bool,
    createdAt: int,
    message: Option<string>,
    status: string)

  const AcademyGraduate: string := "Academy Graduate"

  /** `student.achievements[0] || 'Academy Graduate'`: the headline the
      public cards show, never empty. */
  function HeadlineAchievement(s: Student): (a: string)
    ensures a != ""
    ensures |s.achievements| > 0 && s.achievements[0] != "" ==> a == s.achievements[0]
    ensures |s.achievements| == 0 || s.achievements[0] == "" ==> a == AcademyGraduate
  {
    if |s.achievements| > 0 && s.achievements[0] != "" then s.achievements[0] else AcademyGraduate
  }

  /** The icons the public pages attach to cards. */
  datatype Icon = Trophy | Star | GraduationCap | TrendingUp | Award
}
