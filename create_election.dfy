/** The form for a new election (client/src/views/admin/CreateElection.tsx):
    the checks `onSubmit` makes, in their order, and the list of candidates
    the form collects before the election is created. */
module CreateElectionForm {
  import opened Common
  import opened JsonTime
  import opened TimeInterval

  /** What one press of the submit button does: show an error, or send the
      election to the server. */
  datatype SubmitOutcome = Error(message: string) | Submit

  /** `onSubmit` at time `now`; a missing time is None. */
  function OnSubmit(title: string, openTime: Option<int>, closeTime: Option<int>, now: int): SubmitOutcome
  {
    if title == "" then Error("Title can't be empty")
    else if closeTime.Some? && openTime.None? then
      Error("The end of the election can't be set without setting the start")
    else if openTime.Some? && openTime.value <= now then
      Error("The start of the election can't be before the current time")
    else if openTime.Some? && closeTime.Some? && closeTime.value <= openTime.value then
      Error("The end of the election can't be before the start")
    else Submit
  }

  /** The checks fire in a fixed order: an empty title wins over everything,
      a close time without an open time over the remaining two, and so on;
      the election is sent exactly when no check fires. */
  lemma SubmitChecksInOrder(title: string, openTime: Option<int>, closeTime: Option<int>, now: int)
    ensures title == "" ==> OnSubmit(title, openTime, closeTime, now) == Error("Title can't be empty")
    ensures title != "" && closeTime.Some? && openTime.None? ==>
      OnSubmit(title, openTime, closeTime, now) == Error("The end of the election can't be set without setting the start")
    ensures title != "" && openTime.Some? && openTime.value <= now ==>
      OnSubmit(title, openTime, closeTime, now) == Error("The start of the election can't be before the current time")
    ensures title != "" && openTime.Some? && openTime.value > now && closeTime.Some? && closeTime.value <= openTime.value ==>
      OnSubmit(title, openTime, closeTime, now) == Error("The end of the election can't be before the start")
    ensures OnSubmit(title, openTime, closeTime, now) == Submit <==>
      title != ""
      && (closeTime.Some? ==> openTime.Some?)
      && (openTime.Some? ==> openTime.value > now)
      && (openTime.Some? && closeTime.Some? ==> closeTime.value > openTime.value)
  {
  }

  /** A submitted election with both times set opens after `now`, and the
      server's interval test accepts every instant after the open time up to
      and including the close time, and none up to `now`. */
  lemma SubmittedIntervalIsAhead(title: string, openTime: Option<int>, closeTime: Option<int>, now: int, t: int)
    requires OnSubmit(title, openTime, closeTime, now) == Submit
    requires openTime.Some? && closeTime.Some?
    ensures openTime.value < t <= closeTime.value ==>
      TimeIsInValidInterval(t, SqlNullTime(openTime.value, true), SqlNullTime(closeTime.value, true))
    ensures t <= now ==>
      !TimeIsInValidInterval(t, SqlNullTime(openTime.value, true), SqlNullTime(closeTime.value, true))
  {
  }

  /** A candidate of the form's list; `changed` marks an entry being
      edited. */
  datatype Entry = Entry(id: nat, name: string, presentation: string, symbolic: bool, changed: bool)

  /** `list.filter((c) => c.id != id)` */
  function Without(s: seq<Entry>, id: nat): (r: seq<Entry>)
    ensures |r| <= |s|
  {
    if s == [] then []
    else (if s[0].id != id then [s[0]] else []) + Without(s[1..], id)
  }

  /** `applyWhere((item) => item.id == c.id, () => ({...c, changed: false}))` */
  function ReplaceWhere(s: seq<Entry>, c: Entry): (r: seq<Entry>)
    ensures |r| == |s|
  {
    seq(|s|, i requires 0 <= i < |s| => if s[i].id == c.id then c.(changed := false) else s[i])
  }

  /** Filtering splits over concatenation, so the kept entries stay in
      their order. */
  lemma {:induction false} WithoutConcat(a: seq<Entry>, b: seq<Entry>, id: nat)
    ensures Without(a + b, id) == Without(a, id) + Without(b, id)
  {
    if a != [] {
      assert (a + b)[0] == a[0] && (a + b)[1..] == a[1..] + b;
      WithoutConcat(a[1..], b, id);
    } else {
      assert a + b == b;
    }
  }

  /** Exactly the entries with another id remain. */
  lemma {:induction false} WithoutMembers(s: seq<Entry>, id: nat, e: Entry)
    ensures e in Without(s, id) <==> e in s && e.id != id
  {
    if s != [] {
      WithoutMembers(s[1..], id, e);
      assert s == [s[0]] + s[1..];
    }
  }

  /** The list of candidates the form keeps. */
  class CandidateList {
    var candidates: seq<Entry>

    constructor()
      ensures candidates == []
    {
      candidates := [];
    }

    /** `addCandidate` */
    method AddCandidate(c: Entry)
      modifies this
      ensures candidates == old(candidates) + [c]
    {
      candidates := candidates + [c];
    }

    /** `removeCandidate` */
    method RemoveCandidate(c: Entry)
      modifies this
      ensures candidates == Without(old(candidates), c.id)
      ensures forall e :: e in candidates <==> e in old(candidates) && e.id != c.id
    {
      forall e ensures e in Without(candidates, c.id) <==> e in candidates && e.id != c.id {
        WithoutMembers(candidates, c.id, e);
      }
      candidates := Without(candidates, c.id);
    }

    /** `candidateChanged` */
    method CandidateChanged(c: Entry)
      modifies this
      ensures candidates == ReplaceWhere(old(candidates), c)
    {
      candidates := ReplaceWhere(candidates, c);
    }
  }

  /** `candidateChanged` replaces the entries with the candidate's id by the
      candidate, marked as no longer being edited, and leaves every other
      entry where and as it was. */
  lemma ReplaceWhereTouchesOnlyMatches(s: seq<Entry>, c: Entry)
    ensures forall i :: 0 <= i < |s| && s[i].id == c.id ==> ReplaceWhere(s, c)[i] == c.(changed := false)
    ensures forall i :: 0 <= i < |s| && s[i].id != c.id ==> ReplaceWhere(s, c)[i] == s[i]
    ensures forall i :: 0 <= i < |s| ==> !ReplaceWhere(s, c)[i].changed || s[i].id != c.id
  {
  }
}
