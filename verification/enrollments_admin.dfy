/** The dashboard's enrollment list: its ordering (uncontacted first, newest
    first), the message preview, the pending-contact badge and the status
    filter's labels. */
module EnrollmentsAdmin {
  import opened Text
  import opened Entities
  import Cards
  import Seqs

  // ---------------------------------------------------------------------------
  // Ordering
  // ---------------------------------------------------------------------------

  /** The comparator handed to `sort`: negative when `a` goes first. */
  function Compare(a: Enrollment, b: Enrollment): int {
    if a.contacted != b.contacted then (if a.contacted then 1 else -1)
    else b.createdAt - a.createdAt
  }

  /** `a` may stand before `b`: the comparator does not put `b` first. */
  predicate Precedes(a: Enrollment, b: Enrollment) {
    Compare(a, b) <= 0
  }

  /** Any two enrollments can be ordered one way or the other. */
  lemma PrecedesTotal(a: Enrollment, b: Enrollment)
    ensures Precedes(a, b) || Precedes(b, a)
  {
  }

  /** Standing before is transitive. */
  lemma PrecedesTransitive(a: Enrollment, b: Enrollment, c: Enrollment)
    requires Precedes(a, b) && Precedes(b, c)
    ensures Precedes(a, c)
  {
  }

  predicate Sorted(s: seq<Enrollment>) {
    forall i, j :: 0 <= i < j < |s| ==> Precedes(s[i], s[j])
  }

  /** Puts `x` into a sorted list, before the first entry it precedes. */
  function Insert(x: Enrollment, s: seq<Enrollment>): (r: seq<Enrollment>)
    requires Sorted(s)
    ensures Sorted(r)
    ensures multiset(r) == multiset(s) + multiset{x}
    decreases |s|
  {
    if |s| == 0 then [x]
    else if Precedes(x, s[0]) then
      assert forall j :: 0 <= j < |s| ==> Precedes(x, s[j]) by {
        forall j | 0 <= j < |s| ensures Precedes(x, s[j]) {
          if j > 0 { PrecedesTransitive(x, s[0], s[j]); }
        }
      }
      [x] + s
    else
      var rest := Insert(x, s[1..]);
      assert s == [s[0]] + s[1..];
      assert forall j :: 0 <= j < |rest| ==> Precedes(s[0], rest[j]) by {
        forall j | 0 <= j < |rest| ensures Precedes(s[0], rest[j]) {
          assert rest[j] in multiset(rest);
          if rest[j] != x {
            assert rest[j] in multiset(s[1..]);
            var k :| 0 <= k < |s[1..]| && s[1..][k] == rest[j];
            assert s[k + 1] == rest[j];
          } else {
            PrecedesTotal(x, s[0]);
          }
        }
      }
      [s[0]] + rest
  }

  /** `enrollments.sort(compare)`, as an insertion sort. */
  function SortEnrollments(s: seq<Enrollment>): (r: seq<Enrollment>)
    ensures Sorted(r)
    ensures multiset(r) == multiset(s)
    ensures |r| == |s|
    decreases |s|
  {
    if |s| == 0 then []
    else
      assert s == [s[0]] + s[1..];
      Insert(s[0], SortEnrollments(s[1..]))
  }

  /** In the sorted list every uncontacted enrollment stands before every
      contacted one, and within each group the newest comes first. */
  lemma SortedOrder(s: seq<Enrollment>, i: nat, j: nat)
    requires i < j < |s|
    ensures var r := SortEnrollments(s);
            (!r[j].contacted ==> !r[i].contacted) &&
            (r[i].contacted == r[j].contacted ==> r[i].createdAt >= r[j].createdAt)
  {
  }

  /** The number of uncontacted enrollments. */
  function Pending(s: seq<Enrollment>): (n: nat)
    ensures n <= |s|
    decreases |s|
  {
    if |s| == 0 then 0 else (if s[0].contacted then 0 else 1) + Pending(s[1..])
  }

  /** The "Mark as Contacted" button is offered on exactly the first
      `Pending(s)` cards of the sorted list. */
  lemma {:induction false} MarkContactedIsPrefix(s: seq<Enrollment>)
    ensures var r := SortEnrollments(s);
            forall i :: 0 <= i < |r| ==> (OffersMarkContacted(r[i]) <==> i < Pending(s))
  {
    var r := SortEnrollments(s);
    PendingOfMultiset(r, s);
    UncontactedPrefix(r);
  }

  /** The button itself: only an uncontacted enrollment offers it. */
  predicate OffersMarkContacted(e: Enrollment) {
    !e.contacted
  }

  /** The count only depends on which enrollments there are, not their order. */
  lemma {:induction false} PendingOfMultiset(a: seq<Enrollment>, b: seq<Enrollment>)
    requires multiset(a) == multiset(b)
    ensures Pending(a) == Pending(b)
    decreases |a|
  {
    if |a| > 0 {
      assert a[0] in multiset(b);
      var k :| 0 <= k < |b| && b[k] == a[0];
      var b' := b[..k] + b[k + 1..];
      RemoveAt(a, b, k);
      PendingOfMultiset(a[1..], b');
      PendingRemove(b, k);
    }
  }

  lemma RemoveAt(a: seq<Enrollment>, b: seq<Enrollment>, k: nat)
    requires multiset(a) == multiset(b) && |a| > 0 && k < |b| && b[k] == a[0]
    ensures multiset(a[1..]) == multiset(b[..k] + b[k + 1..])
  {
    var x := a[0];
    assert b == b[..k] + [x] + b[k + 1..];
    assert a == [x] + a[1..];
    calc {
      multiset(a[1..]);
      multiset(a) - multiset{x};
      multiset(b) - multiset{x};
      multiset(b[..k]) + multiset{x} + multiset(b[k + 1..]) - multiset{x};
      multiset(b[..k]) + multiset(b[k + 1..]);
      multiset(b[..k] + b[k + 1..]);
    }
  }

  lemma PendingRemove(b: seq<Enrollment>, k: nat)
    requires k < |b|
    ensures Pending(b) == (if b[k].contacted then 0 else 1) + Pending(b[..k] + b[k + 1..])
  {
    var pre, x, post := b[..k], b[k], b[k + 1..];
    Seqs.SplitAround(b, k);
    PendingSplit(pre, [x] + post);
    PendingCons(x, post);
    PendingSplit(pre, post);
  }

  lemma PendingCons(x: Enrollment, s: seq<Enrollment>)
    ensures Pending([x] + s) == (if x.contacted then 0 else 1) + Pending(s)
  {
    assert ([x] + s)[1..] == s;
  }

  lemma {:induction false} PendingSplit(a: seq<Enrollment>, b: seq<Enrollment>)
    ensures Pending(a + b) == Pending(a) + Pending(b)
    decreases |a|
  {
    if |a| > 0 {
      assert (a + b)[1..] == a[1..] + b;
      PendingSplit(a[1..], b);
    } else {
      assert a + b == b;
    }
  }

  /** In a sorted list the uncontacted enrollments are the first `Pending`. */
  lemma {:induction false} UncontactedPrefix(r: seq<Enrollment>)
    requires Sorted(r)
    ensures forall i :: 0 <= i < |r| ==> (!r[i].contacted <==> i < Pending(r))
    decreases |r|
  {
    if |r| > 0 {
      UncontactedPrefix(r[1..]);
      assert forall i :: 1 <= i < |r| ==> r[i] == r[1..][i - 1];
      if r[0].contacted {
        assert forall i :: 0 <= i < |r| ==> r[i].contacted by {
          forall i | 0 <= i < |r| ensures r[i].contacted {
            if i > 0 { assert Precedes(r[0], r[i]); }
          }
        }
        ZeroPending(r);
      }
    }
  }

  lemma {:induction false} ZeroPending(r: seq<Enrollment>)
    requires forall i :: 0 <= i < |r| ==> r[i].contacted
    ensures Pending(r) == 0
    decreases |r|
  {
    if |r| > 0 {
      ZeroPending(r[1..]);
    }
  }

  // ---------------------------------------------------------------------------
  // Message preview
  // ---------------------------------------------------------------------------

  const PreviewLimit: nat := 100

  /** The message box: absent for a missing or empty message; otherwise the
      message, cut to 100 characters and "..." when longer. */
  function MessagePreview(message: Option<string>): (shown: Option<string>)
    ensures shown.None? <==> message.None? || message.value == ""
    ensures shown.Some? && |message.value| <= PreviewLimit ==> shown.value == message.value
    ensures shown.Some? && |message.value| > PreviewLimit ==>
              |shown.value| == PreviewLimit + 3 && StartsWith(message.value, shown.value[..PreviewLimit])
    ensures shown.Some? && |message.value| > PreviewLimit ==> shown.value[PreviewLimit..] == "..."
  {
    match message
    case None => None
    case Some(m) =>
      if m == "" then None
      else if |m| > PreviewLimit then Some(m[..PreviewLimit] + "...")
      else Some(m)
  }

  /** The preview is the cards' truncation with a limit of 100. */
  lemma PreviewIsTruncation(message: Option<string>)
    ensures MessagePreview(message).Some? ==> MessagePreview(message).value == Cards.TruncateText(message, PreviewLimit)
    ensures MessagePreview(message).None? ==> Cards.TruncateText(message, PreviewLimit) == ""
  {
  }

  // ---------------------------------------------------------------------------
  // Badge and labels
  // ---------------------------------------------------------------------------

  /** The header badge: "N pending contact", plural unless N is 1, shown only
      when N is positive. */
  function Badge(uncontacted: int): (b: Option<string>)
    ensures b.Some? <==> uncontacted > 0
    ensures b.Some? ==>
              Split(b.value, ' ') == [IntToString(uncontacted), "pending", if uncontacted != 1 then "contacts" else "contact"]
  {
    if uncontacted > 0 then
      var words := [IntToString(uncontacted), "pending", "contact" + (if uncontacted != 1 then "s" else "")];
      BadgeWordsHaveNoSpace(uncontacted, words);
      SplitJoin(words, ' ');
      Some(Join(words, ' '))
    else
      None
  }

  lemma BadgeWordsHaveNoSpace(n: int, words: seq<string>)
    requires n > 0 && |words| == 3 && words[0] == IntToString(n)
    requires words[1] == "pending" && (words[2] == "contact" || words[2] == "contacts")
    ensures forall i :: 0 <= i < |words| ==> ' ' !in words[i]
  {
    assert IntToString(n) == NatToString(n);
  }

  /** The badge's count reads back as the number of pending enrollments, and
      the noun ends in "s" exactly when that number is not 1. */
  lemma BadgeReadsBack(uncontacted: int)
    requires uncontacted > 0
    ensures var words := Split(Badge(uncontacted).value, ' ');
            ParseInt(words[0]) == Some(uncontacted) &&
            (words[2][|words[2]| - 1] == 's' <==> uncontacted != 1)
  {
    ParseIntOfIntToString(uncontacted);
  }

  /** `status.charAt(0).toUpperCase() + status.slice(1)` */
  function Capitalize(s: string): (r: string)
    ensures |r| == |s|
    ensures |s| > 0 ==> r[0] == ToUpperAscii(s[0]) && r[1..] == s[1..]
  {
    if |s| == 0 then "" else [ToUpperAscii(s[0])] + s[1..]
  }

  /** Capitalising twice is capitalising once, and a string that does not
      start with a lower-case ASCII letter is left as it is. */
  lemma CapitalizeIdempotent(s: string)
    ensures Capitalize(Capitalize(s)) == Capitalize(s)
    ensures (|s| == 0 || !('a' <= s[0] <= 'z')) ==> Capitalize(s) == s
  {
    if |s| > 0 {
      assert s == [s[0]] + s[1..];
    }
  }

  const Statuses: seq<string> := ["pending", "contacted", "enrolled", "rejected"]

  /** The filter's four labels. */
  lemma StatusLabels()
    ensures Capitalize(Statuses[0]) == "Pending" && Capitalize(Statuses[1]) == "Contacted"
    ensures Capitalize(Statuses[2]) == "Enrolled" && Capitalize(Statuses[3]) == "Rejected"
  {
  }
}
