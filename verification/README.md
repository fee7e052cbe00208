# Aspire Chess Academy front end — a Dafny model of its page logic

The academy's web front end is a React application. It has a public site
(featured students, testimonials, tournaments, a contact form) and an admin
dashboard (students, tournaments, enrollments, an overview). Most of it draws
markup. Underneath, the pages hold a small amount of logic:

- the crop dialog's JPEG compression loop, which keeps an upload under 500 KiB;
- the image-URL helpers, which decide whether a stored reference is drawn;
- the multipart bodies the admin forms send, and the file pickers' guards;
- how achievements travel between a textarea and a list;
- the enrollment list's sort order and its "pending contact(s)" badge;
- the featured-student strip, the testimonial carousel and its timer;
- the participation percentage, champion and participant cells of past
  tournaments;
- the contact form's payload;
- the dashboard's counters.

This project restates that logic as Dafny functions, methods and lemmas.

One module follows each source component. Shared modules hold the
JavaScript behaviour the components lean on:

- `Text` (an `Option` type, strings): JavaScript whitespace and `trimStart`,
  `split`/`join`, `parseInt`, `String(n)`.
- `JsMath`: the truncating `%` and `Math.round`.
- `Seqs`: `Array.prototype.filter`.
- `Forms`: form values, their truthiness and text form, records keyed by
  field name, `FormData` entries.
- `Entities`: the API's student, tournament and enrollment records.

Whatever the browser or the server decides is a parameter. This covers:

- whether an image loads or a 2D context exists;
- the size the JPEG encoder produces at each quality;
- what a `prompt` returns;
- whether a request succeeds;
- which fetches fail.

A JavaScript value that may be `null`/`undefined` is an `Option`. `NaN` from
`parseInt` is `None`.

The fallback students and testimonials shown when a fetch fails are
constants (`MeetStudents.FallbackCards`, `Testimonials.Fallback`). They carry
the pages' own names, titles, ratings, quotes, achievements, images, icons and
colours (src/pages/public/components/MeetStudents.jsx:78-109,
src/pages/public/components/Testimonials.jsx:57-94).

Three behaviours of the code that are easy to misread:

- A canvas without a 2D context makes `getCroppedImg` resolve to `null`
  (src/components/CropModal.jsx:108-110 and 132-134). `handleSave` then does
  nothing at all: no error is shown.
- A crop that fits at no quality is encoded 13 times, not 12. The final
  fallback re-encodes the downscaled canvas at 30 % once more
  (src/components/CropModal.jsx:192-194).
- The dashboard's tournament status colours are not four distinct classes.
  "completed" gets the same gray as an unknown status
  (src/pages/dashboard/pages/Tournaments.jsx:286-294).

## Model

| member | source | states |
|---|---|---|
| `CropModal.CroppedCanvas` | src/components/CropModal.jsx:136-137 | The cropped canvas takes exactly the crop rectangle's width and height. |
| `CropModal.ScaledDims` | src/components/CropModal.jsx:174-176 | The downscaled canvas fits in 1200×1200, its longer side is scaled to 1200 and its sides are rounded down (exact arithmetic, see Left out), and a zero side stays zero. |
| `CropModal.ScaledDimsUpscalesSmallCanvas` | src/components/CropModal.jsx:174-176 | The scale is 1200 / longest side even when that is above 1, so a small crop is enlarged by the "downscaling" step. |
| `CropModal.ScheduleShape` | src/components/CropModal.jsx:158-194 | Qualities strictly fall within each phase of the attempt schedule. The downscaled phase starts at the seventh encode. |
| `CropModal.CompressImageToSize` | src/components/CropModal.jsx:157-195 | The encodes made are a prefix of the schedule: 80 %…30 % full size, then 80 %…30 % downscaled, then 30 % again. The first full-size quality that fits is returned. Otherwise the first downscaled quality that fits is returned. Otherwise the last encode is returned, whatever its size. |
| `CropModal.GetCroppedImg` | src/components/CropModal.jsx:99-154 | A failed image load rejects without encoding. A missing 2D context resolves to nothing without encoding. Otherwise the encodes are a prefix of the schedule and the blob is compression's result. It is the encode of the first fitting full-size quality, at index i, after i + 1 encodes. Failing that, it is the encode of the first fitting downscaled quality, at index i, with the downscaled dimensions, after 6 + i + 1 encodes. When nothing fits, the blob is the 30 % downscaled encode, after 13 encodes. |
| `CropModal.HandleSave` | src/components/CropModal.jsx:197-226 | Nothing happens without a crop area. A blob reaches the parent only when it is at most 500 KiB. A larger one gives the size error. A failed image load gives the "Error processing image" toast. A missing 2D context or a `null` blob is dropped silently. |
| `CropModal.Save` | src/components/CropModal.jsx:197-226 | No crop area means no encode. An image that fails to load gives the processing error, and a missing 2D context gives no image; neither encodes. A completed save hands over a blob of at most 500 KiB after at most 13 encodes. The blob handed over is the encode of the first fitting full-size quality, with the cropped dimensions. When only a downscaled quality fits, it is the first fitting downscaled encode, with the downscaled dimensions. When nothing fits, the save never completes: it ends with the size error or with no image, after 13 encodes. |
| `CropModal.Rotate90` | src/components/CropModal.jsx:330 | Rotating adds 90° taken modulo 360 with JavaScript's sign-keeping `%`: an angle that stays within (-360, 360) is just increased by 90, and a sum below 0 stays in (-360, 0]. Crop, zoom and area are untouched. |
| `CropModal.RotateFourTimes` | src/components/CropModal.jsx:330 | Four quarter turns from an angle in [0, 360) give back the same session. |
| `CropModal.RotateFromNegative` | src/components/CropModal.jsx:352 | A slider angle of -180 stays negative after one turn (-90), and reads 180 after four turns. |
| `CropModal.ResetAll` | src/components/CropModal.jsx:364-368 | "Reset All" restores the initial crop, zoom and rotation and keeps the selected area. Afterwards the button is disabled. |
| `CropModal.Close` | src/components/CropModal.jsx:228-234 | Closing returns the dialog to its initial state. Save is then disabled. |
| `CropModal.ResetZoom` | src/components/CropModal.jsx:303-304 | The zoom reset sets zoom to 1 and leaves the other controls alone. |
| `CropModal.ResetRotation` | src/components/CropModal.jsx:337-338 | The rotation reset sets the angle to 0 and leaves the other controls alone. |
| `CropModal.ResetControlsAgreeWithResetAll` | src/components/CropModal.jsx:489-493 | With the crop at the origin, both small resets together equal "Reset All". |
| `ImageUtils.IsValidImageUrl` | src/utils/imageUtils.js:4-17 | A missing or empty reference is invalid. An upload path, any text containing the Cloudinary host, or an http(s) URL is valid. Nothing else is. |
| `ImageUtils.CloudinaryValidWithAnyScheme` | src/utils/imageUtils.js:11 | Any text around the Cloudinary host is accepted. |
| `ImageUtils.ImageDisplayUrl` | src/utils/imageUtils.js:20-34 | The display URL is the reference unchanged, and exists exactly for http(s) URLs and upload paths. It exists only for valid references. |
| `ImageUtils.ValidWithoutDisplayUrl` | src/utils/imageUtils.js:4-34 | A scheme-less Cloudinary reference is valid but has no display URL. |
| `ImageUtils.ImageWithFallback` | src/utils/imageUtils.js:44-57 | The fallback is drawn exactly when the source is invalid. Otherwise an `<img>` with the display URL is drawn. |
| `ImageUtils.ImgWithoutSource` | src/utils/imageUtils.js:44-57 | A scheme-less Cloudinary source is drawn as an `<img>` with no `src`. |
| `StudentsAdmin.SplitAchievements` | src/pages/dashboard/pages/Students.jsx:253-258 | Exactly the lines of the textarea that are not blank are kept, untrimmed, in their order and with every repeated copy. None of them holds a line break. Empty text gives no achievements. |
| `StudentsAdmin.SplitAchievementsUnique` | src/pages/dashboard/pages/Students.jsx:253-258 | Any list that keeps the line order and holds every copy of each non-blank line and nothing else is the submitted list. |
| `StudentsAdmin.AchievementsRoundTrip` | src/pages/dashboard/pages/Students.jsx:144 | Joining the list for editing and splitting it on save gives the list back, when no achievement is blank or holds a line break. |
| `StudentsAdmin.BlankAchievementDropped` | src/pages/dashboard/pages/Students.jsx:253-258 | A blank achievement is lost in that round trip. |
| `StudentsAdmin.AchievementKeysDistinct` | src/pages/dashboard/pages/Students.jsx:90-92 | Different positions give different `achievements[i]` field names. |
| `StudentsAdmin.AchievementEntries` | src/pages/dashboard/pages/Students.jsx:90-92 | The i-th achievement is sent as field `achievements[i]`. |
| `StudentsAdmin.FieldEntries` | src/pages/dashboard/pages/Students.jsx:86-97 | Every part of the body is a text field, and none is named `image`. |
| `StudentsAdmin.FieldEntriesAppend` | src/pages/dashboard/pages/Students.jsx:86-97 | Each field contributes its parts independently, in key order. |
| `StudentsAdmin.AchievementsInPlace` | src/pages/dashboard/pages/Students.jsx:88-92 | The achievements array is spread over consecutive indexed fields, where the array sits. |
| `StudentsAdmin.ScalarFieldSent` | src/pages/dashboard/pages/Students.jsx:93-95 | Every other field except `image` is sent as its text form. |
| `StudentsAdmin.StudentFormData` | src/pages/dashboard/pages/Students.jsx:83-102 | The body is the field parts followed by exactly one more part when a cropped image exists: the blob, named `student-image.jpg`, under `image`. No other part is named `image`. |
| `StudentsAdmin.SelectImage` | src/pages/dashboard/pages/Students.jsx:196-223 | No file does nothing. A file over 500 KiB is refused whatever its type. A non-image is refused. Both refusals clear the input. An image up to 500 KiB opens the crop dialog. |
| `StudentsAdmin.EditImageState` | src/pages/dashboard/pages/Students.jsx:151-156 | A valid stored image becomes the preview, leaving the rest of the image state. Anything else resets the whole image state. |
| `TournamentsAdmin.FieldEntries` | src/pages/dashboard/pages/Tournaments.jsx:101-106 | Every field but `posterImage` is sent as text, and no text part is named `posterImage`. |
| `TournamentsAdmin.FieldEntriesAreKeptFields` | src/pages/dashboard/pages/Tournaments.jsx:101-106 | The text parts are, one for one and in order, the form's fields without `posterImage`, each as its text. |
| `TournamentsAdmin.FieldEntriesAppend` | src/pages/dashboard/pages/Tournaments.jsx:101-106 | The parts of a form are the parts of its first fields followed by the parts of the rest. |
| `TournamentsAdmin.TournamentFormData` | src/pages/dashboard/pages/Tournaments.jsx:99-111 | The body is the text parts followed by exactly one more part when a crop exists: the blob, named `tournament-poster.jpg`, under `posterImage`. No other part is named `posterImage`. |
| `TournamentsAdmin.SelectPoster` | src/pages/dashboard/pages/Tournaments.jsx:235-249 | The poster picker checks only the MIME type. A refusal leaves the input as it was. |
| `TournamentsAdmin.PosterPickerIsLaxer` | src/pages/dashboard/pages/Tournaments.jsx:235-249 | Every file the student picker sends to the cropper is sent by the poster picker too. An oversized image reaches the poster cropper but not the student one. |
| `TournamentsAdmin.EditPosterState` | src/pages/dashboard/pages/Tournaments.jsx:167-171 | Only a poster path starting with `/uploads/` becomes the preview. Anything else resets the image state. |
| `TournamentsAdmin.PosterRuleStricter` | src/pages/dashboard/pages/Tournaments.jsx:167-171 | Every kept poster is a valid image reference. An https poster is valid, yet its preview is dropped. |
| `TournamentsAdmin.CreateDefaults` | src/pages/dashboard/pages/Tournaments.jsx:262-284 | The new-tournament form has the sixteen fields in order, with distinct keys. Participants start at 0, the category at "Open Tournament" and the poster at "🏆". Every other field is empty. |
| `TournamentsAdmin.CreateDefaultValues` | src/pages/dashboard/pages/Tournaments.jsx:270-278 | Looking the defaults up by name gives those values. |
| `TournamentsAdmin.MarkCompleted` | src/pages/dashboard/pages/Tournaments.jsx:198-200 | A winner is sent exactly when the prompt returns non-empty text, and it is that text. |
| `TournamentsAdmin.UpdateParticipants` | src/pages/dashboard/pages/Tournaments.jsx:211-218 | A cancelled prompt sends nothing. Any other answer sends `parseInt` of it. |
| `TournamentsAdmin.EmptyParticipantAnswer` | src/pages/dashboard/pages/Tournaments.jsx:211-218 | An empty answer still sends a request, with `NaN`. A number's decimal text sends that number. |
| `TournamentsAdmin.StatusColor` | src/pages/dashboard/pages/Tournaments.jsx:286-294 | The default gray is used exactly for statuses other than upcoming, ongoing and cancelled. |
| `TournamentsAdmin.StatusColorsDistinct` | src/pages/dashboard/pages/Tournaments.jsx:286-294 | The three highlighted statuses have distinct colours. "completed" looks like an unknown status. |
| `EnrollmentsAdmin.PrecedesTotal` | src/pages/dashboard/pages/Enrollments.jsx:212-219 | Any two enrollments are ordered one way or the other by the comparator. |
| `EnrollmentsAdmin.PrecedesTransitive` | src/pages/dashboard/pages/Enrollments.jsx:212-219 | The comparator's order is transitive. |
| `EnrollmentsAdmin.SortEnrollments` | src/pages/dashboard/pages/Enrollments.jsx:212-219 | The sorted list is ordered by the comparator and is a permutation of the input. |
| `EnrollmentsAdmin.SortedOrder` | src/pages/dashboard/pages/Enrollments.jsx:214-218 | Every uncontacted enrollment precedes every contacted one. Within each group, newer comes first. |
| `EnrollmentsAdmin.MarkContactedIsPrefix` | src/pages/dashboard/pages/Enrollments.jsx:308 | The "Mark contacted" buttons occupy exactly the first positions of the sorted list, one per uncontacted enrollment of the input. |
| `EnrollmentsAdmin.PendingOfMultiset` | src/pages/dashboard/pages/Enrollments.jsx:212-219 | Reordering does not change how many enrollments are uncontacted. |
| `EnrollmentsAdmin.MessagePreview` | src/pages/dashboard/pages/Enrollments.jsx:276-282 | A missing or empty message shows no preview. Up to 100 characters are shown whole. A longer one shows its first 100 characters and then "...". |
| `EnrollmentsAdmin.PreviewIsTruncation` | src/pages/dashboard/pages/Enrollments.jsx:276-282 | The preview is the cards' truncation at 100 characters. |
| `EnrollmentsAdmin.Badge` | src/pages/dashboard/pages/Enrollments.jsx:127-131 | The badge is shown exactly for a positive count. Its words are the count, "pending", and "contact" for one or "contacts" otherwise. |
| `EnrollmentsAdmin.BadgeReadsBack` | src/pages/dashboard/pages/Enrollments.jsx:131 | Splitting the badge on spaces gives back the count's text, "pending" and the noun. |
| `EnrollmentsAdmin.Capitalize` | src/pages/dashboard/pages/Enrollments.jsx:190 | The label upper-cases the first letter and keeps the rest and the length. |
| `EnrollmentsAdmin.CapitalizeIdempotent` | src/pages/dashboard/pages/Enrollments.jsx:190 | Capitalising a label again changes nothing, and a status not starting with a lower-case letter is shown as it is. |
| `EnrollmentsAdmin.StatusLabels` | src/pages/dashboard/pages/Enrollments.jsx:34 | The four status filters read "Pending", "Contacted", "Enrolled" and "Rejected". |
| `Cards.TruncateText` | src/pages/dashboard/components/StudentCard.jsx:13-16 | Missing text gives "". Text within the limit is unchanged. Longer text is its first `limit` characters plus "...". The result is never longer than the limit plus three. |
| `Cards.TruncateIdempotent` | src/pages/dashboard/components/TournamentCard.jsx:15-18 | Truncating a truncation changes nothing. |
| `Cards.ReadMoreIffTruncated` | src/pages/dashboard/components/StudentCard.jsx:202-213 | "Read more" is offered exactly when the text is longer than 50 characters. In that case the card shows its first 50 characters followed by "...". |
| `Cards.ReadMoreWhenChanged` | src/pages/dashboard/components/TournamentCard.jsx:248-259 | Shortened text always offers "Read more". The link can appear beside an unchanged text only when that text is 53 characters long and ends in "...". |
| `Cards.UnchangedButReadMore` | src/pages/dashboard/components/StudentCard.jsx:202-213 | A 53-character text ending in "..." is displayed cut at 50 plus "...", identical on screen to a complete text. |
| `MeetStudents.SelectStudents` | src/pages/public/components/MeetStudents.jsx:24-29 | Three students are shown, or all when fewer. They are drawn from the input, featured before regular. |
| `MeetStudents.SelectionKeepsOrder` | src/pages/public/components/MeetStudents.jsx:24-29 | Among the shown students, featured and regular ones each keep the order the API gave. |
| `MeetStudents.FeaturedNotDisplaced` | src/pages/public/components/MeetStudents.jsx:24-29 | A featured student left out means all three shown are featured ones listed before it. |
| `MeetStudents.AllFeaturedWhenEnough` | src/pages/public/components/MeetStudents.jsx:24-29 | With three or more featured students, the strip shows exactly the first three featured. |
| `MeetStudents.Cycles` | src/pages/public/components/MeetStudents.jsx:59-76 | Default images repeat every 4 positions and icons and colours every 3, with no repeat inside a period. |
| `MeetStudents.MakeCard` | src/pages/public/components/MeetStudents.jsx:32-41 | A card copies the student's texts and takes the headline achievement. A missing image takes the position's default image. The icon and colour follow the position. |
| `MeetStudents.Strip` | src/pages/public/components/MeetStudents.jsx:20-50 | A failed fetch shows the fallback cards. Otherwise each selected student becomes a card at its position. At most three cards are shown. |
| `MeetStudents.StripIconsDistinct` | src/pages/public/components/MeetStudents.jsx:64-76 | No two cards of the strip share an icon or a colour. |
| `MeetStudents.FallbackFollowsCycle` | src/pages/public/components/MeetStudents.jsx:78-109 | The fallback cards use the same icon, colour and default-image cycle as fetched ones. |
| `MeetStudents.Avatar` | src/pages/public/components/MeetStudents.jsx:253-261 | The card's image is drawn exactly when it is a valid image reference. Otherwise the 👤 placeholder is drawn. |
| `MeetStudents.DefaultImageNeverDrawn` | src/pages/public/components/MeetStudents.jsx:37-38 | A student without an image always shows the 👤 placeholder. The emoji default is never a valid reference. |
| `Entities.HeadlineAchievement` | src/pages/public/components/MeetStudents.jsx:37 | The headline is the first achievement, or "Academy Graduate" when there is none, and never empty. |
| `Testimonials.FromStudents` | src/pages/public/components/Testimonials.jsx:19-27 | One testimonial per student, in order, with the student's texts and the position's icon and colour (period 4). |
| `Testimonials.FromStudentsAppend` | src/pages/public/components/Testimonials.jsx:19-27 | Extra students leave the earlier testimonials unchanged. |
| `Testimonials.Load` | src/pages/public/components/Testimonials.jsx:14-33 | A failed fetch shows the fallback list. Otherwise the list is the students' testimonials, one per student in order. |
| `Testimonials.FallbackOffCycle` | src/pages/public/components/Testimonials.jsx:57-94 | The fallback list does not follow the icon and colour cycle used for fetched students. |
| `Testimonials.Step` | src/pages/public/components/Testimonials.jsx:103-110 | A dot click jumps to its slide. The timer advances one slide and wraps to the first after the last. With no slides it does nothing. |
| `Testimonials.StepInRange` | src/pages/public/components/Testimonials.jsx:277 | From a slide in range, a tick or a click on an existing dot stays in range. |
| `Testimonials.TicksCycle` | src/pages/public/components/Testimonials.jsx:103-110 | After as many ticks as slides, the carousel is back where it started. Every slide is reached within one cycle. |
| `PublicTournaments.Upcoming` | src/pages/public/pages/Tournaments.jsx:25 | Exactly the active tournaments of the response are listed, in response order and with every repeated copy. |
| `PublicTournaments.UpcomingUnique` | src/pages/public/pages/Tournaments.jsx:25 | Any list that keeps the response order and holds every copy of each active tournament and nothing else is the upcoming list. |
| `PublicTournaments.UpcomingStable` | src/pages/public/pages/Tournaments.jsx:25 | Filtering the listed tournaments again changes nothing. An all-active response is listed whole. |
| `PublicTournaments.Load` | src/pages/public/pages/Tournaments.jsx:22-42 | If either fetch fails, both lists are empty and the error message is set. Otherwise the lists are the active upcoming tournaments and the past tournaments. |
| `PublicTournaments.ParticipationPercentage` | src/pages/public/pages/Tournaments.jsx:68-70 | The percentage is current/max×100 rounded half up. There is none when max is 0. |
| `PublicTournaments.ParticipationBounds` | src/pages/public/pages/Tournaments.jsx:68-70 | An empty tournament shows 0 % and a full one 100 %. Percentages stay in [0, 100] and grow with the count. |
| `PublicTournaments.CategoryColor` | src/pages/public/pages/Tournaments.jsx:59-66 | The gray default is used exactly for categories other than the three known ones. |
| `PublicTournaments.CategoryColorsDistinct` | src/pages/public/pages/Tournaments.jsx:59-66 | The three known categories have distinct colours. |
| `PublicTournaments.Champion` | src/pages/public/pages/Tournaments.jsx:643 | The winner's name is shown, or "TBD" when there is none. Never empty. |
| `PublicTournaments.ChampionIsOr` | src/pages/public/pages/Tournaments.jsx:643 | The cell is what JavaScript's `winner \|\| 'TBD'` evaluates to. |
| `PublicTournaments.PastParticipants` | src/pages/public/pages/Tournaments.jsx:648 | The final count is shown when non-zero, else the current count when non-zero, else "N/A". |
| `PublicTournaments.PastParticipantsIsOr` | src/pages/public/pages/Tournaments.jsx:648 | The cell is what JavaScript's `finalParticipants \|\| currentParticipants \|\| 'N/A'` evaluates to. |
| `Forms.Or` | src/pages/public/pages/Tournaments.jsx:643 | JavaScript's `\|\|` returns one of its operands, the left one when truthy, and is truthy exactly when either operand is. |
| `Contact.InitialForm` | src/pages/public/pages/Contact.jsx:6-17 | The form starts with the ten fields, distinct keys, branch "Kalamboli", experience "Beginner" and consent off. Everything else is empty. |
| `Contact.HandleInputChange` | src/pages/public/pages/Contact.jsx:20-25 | The named field takes the typed value, or the checked state of a checkbox. Every other field is unchanged. |
| `Contact.BuildPayload` | src/pages/public/pages/Contact.jsx:40-48 | The message is the three lines joined by line breaks. Age is sent, parsed, exactly when the field is truthy. Email, phone, branch and experience are passed through. |
| `Contact.NameSplitsBack` | src/pages/public/pages/Contact.jsx:41 | Without spaces in either name, the sent name splits back into first and last name. |
| `Contact.MessageSplitsBack` | src/pages/public/pages/Contact.jsx:47 | Without line breaks in the message or program, the sent message splits back into its three lines. |
| `Contact.AgeSent` | src/pages/public/pages/Contact.jsx:45 | A typed whole number is sent as that number. |
| `Contact.HandleSubmit` | src/pages/public/pages/Contact.jsx:32-66 | A request is sent exactly when first name, last name, email and phone are filled, and it carries the payload. The form resets only after a successful request. |
| `Contact.InitialFormNotSent` | src/pages/public/pages/Contact.jsx:32-35 | Submitting the untouched form sends nothing and keeps it. |
| `Dashboard.ComputeStats` | src/pages/dashboard/pages/Dashboard.jsx:34-39 | The totals are the list lengths. Active students and upcoming tournaments are the matching subsets, and with the rest they add up to the totals. |
| `Dashboard.StatsExtremes` | src/pages/dashboard/pages/Dashboard.jsx:34-39 | All active gives active = total, and none active gives 0. The same holds for upcoming tournaments. |
| `Dashboard.Load` | src/pages/dashboard/pages/Dashboard.jsx:24-45 | If any of the four requests fails, the initial zeros and empty lists stay. Otherwise the stats come from the full lists and the short lists are shown. |
| `Dashboard.RecentFailureZeroesStats` | src/pages/dashboard/pages/Dashboard.jsx:24-45 | A failure of only the short-list request still leaves every counter at 0. |
| `Dashboard.StatsIgnoreRecentLists` | src/pages/dashboard/pages/Dashboard.jsx:34-39 | When everything loads, the stats depend only on the full lists. |
| `Text.ParseIntOfIntToString` | src/pages/dashboard/pages/Tournaments.jsx:217 | `parseInt` of a number's decimal text gives the number back. |
| `Text.SplitJoin` | src/pages/dashboard/pages/Students.jsx:144 | Splitting a join on a separator the pieces lack gives the pieces back. |
| `Text.JoinSplit` | src/pages/dashboard/pages/Students.jsx:257 | Joining a split on the same separator gives the text back. |
| `Forms.Set` | src/pages/public/pages/Contact.jsx:20-25 | Updating one field keeps keys distinct and sets that field. Every other field is left unchanged. |
| `Forms.Stringify` | src/pages/dashboard/pages/Students.jsx:94 | Text is appended as itself, a number as text that `parseInt` reads back, and a boolean as "true" or "false". |
| `JsMath.Round` | src/pages/public/pages/Tournaments.jsx:69 | `Math.round` of a fraction: the nearest integer, halves rounding up. |
| `JsMath.JsRem` | src/components/CropModal.jsx:330 | JavaScript's `%`: the result takes the dividend's sign and is smaller than the divisor in magnitude. |
| `Seqs.Filter` | src/pages/public/components/MeetStudents.jsx:24-25 | `filter` keeps exactly the elements that pass, in order, as a sub-multiset of the input. |
| `Seqs.FilterPartition` | src/pages/public/components/MeetStudents.jsx:24-25 | `filter(p)` and `filter(!p)` together hold every element exactly once. |
| `Seqs.FilterSubsequence` | src/pages/public/components/MeetStudents.jsx:24-25 | `filter` keeps its survivors in their original order. |
| `Seqs.FilterMultiplicity` | src/pages/public/components/MeetStudents.jsx:24-25 | `filter` keeps every copy of each passing element and no copy of anything else. |
| `Seqs.FilterUnique` | src/pages/public/components/MeetStudents.jsx:24-25 | Order and multiplicity determine `filter`: a subsequence with the filter's multiplicities is the filter. |

## Left out

- Canvas drawing, rotation geometry and JPEG encoding are floating point and browser work. The encoder is a parameter giving the blob size at each phase and quality. It is a function, so the same canvas at the same quality always gives the same size. The claim that a save where nothing fits never completes rests on this: the last-resort 0.3 encode repeats a failed one.
- react-easy-crop's drag and scroll handling is left out. The crop position and zoom are plain values, and only the controls' resets are modelled.
- Network calls, authentication, toasts, console logging, loading spinners and animations are left out. Each request's outcome is a parameter.
- Dates: `createdAt` is a number of milliseconds. An unparsable date, which makes the comparator return `NaN`, is not modelled.
- `EnrollmentsAdmin.SortEnrollments` does not state stability. `Array.prototype.sort` is stable, but the model only promises some order the comparator accepts for equal keys.
- `EnrollmentsAdmin.Capitalize` upper-cases ASCII letters only. JavaScript's `toUpperCase` covers all of Unicode, and the status names are ASCII.
- `Text.ParseInt` covers decimal and `0x` hexadecimal prefixes of unbounded size. It does not model the precision limit of JavaScript numbers or other radices.
- `JsMath.Round` is stated on exact fractions. Floating-point rounding of `current / max * 100` near a half is not modelled.
- `PublicTournaments.ParticipationPercentage` returns no value for a zero maximum, where JavaScript gives `NaN` or `Infinity`.
- `PublicTournaments.PastParticipants` treats a missing count as 0, which JavaScript's `||` treats the same way.
- `Cards.TruncateText`, `Cards.ReadMoreIffTruncated` and `EnrollmentsAdmin.MessagePreview` count and cut Unicode scalar values, where JavaScript counts UTF-16 code units. Text with characters outside the Basic Multilingual Plane, such as emoji, is cut and flagged as long later than in the browser, and a cut never splits a surrogate pair.
- `CropModal.ScaledDims` rounds the scaled sides down in exact arithmetic. The browser computes `canvas.width * scale` in doubles before the canvas truncates it, so a product just under a whole number can come out one pixel smaller: a 281×100 crop is 1199 pixels wide in JavaScript, and a 28×21 crop is 899 pixels high. The longer side is therefore 1200 in the model but may be 1199 in the browser.
- A browser that gives the first canvas a 2D context but not the downscaled one is not modelled: `scaledCtx.drawImage` then throws after the six full-size encodes (src/components/CropModal.jsx:172-178), and the save ends with the "Error processing image" toast. The model has one context flag for both canvases.
- A student record without an `achievements` array is not modelled: reading `student.achievements[0]` or `student.achievements.join` throws (src/pages/public/components/MeetStudents.jsx:37, src/pages/public/components/Testimonials.jsx:24, src/pages/dashboard/pages/Students.jsx:144). The model's student always has a list.
- `Forms.Value` has no `null`: a `null` field would be sent as the text "null" by `String(null)`, and the model's forms never hold one.
- Only the record fields the modelled logic reads are kept. The rest of each API record is left out.
- The Enrollments page's `getStatusColor` and `getBranchColor` colour tables, and the enrollment detail dialog, are pure markup choices and are left out.
- Routing, layouts, the navigation bar, the error boundary, the API client and static pages hold no logic of their own beyond markup, and are not part of this model.
- The WhatsApp link built on the programs page is a thin wrapper over `encodeURIComponent`, and is not part of this model.
- The day count on the enrollment card reads the clock, and is not part of this model.
- Login, logout and token storage in the authentication context are session plumbing, and are not part of this model.
