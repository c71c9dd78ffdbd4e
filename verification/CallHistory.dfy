/** What a session comes to, read off its callbacks by position. */
module CallHistory {
  import opened Basics
  import opened CallTrees
  import opened CallForests
  import opened CallRecords
  import opened CallSessions
  import opened SortedMaps

  /** The callback makes an entry for the function if there is none. */
  predicate Mentions(c: Callback, f: int) {
    || (c.Mapped? && c.allowed && c.functionId == f)
    || ((c.Entered? || c.UnwindEntered?) && c.functionId == f && f != 0)
  }

  predicate Mentioned(cs: seq<Callback>, f: int) {
    exists j :: 0 <= j < |cs| && Mentions(cs[j], f)
  }

  /** The first mention of the function at `j` maps it. */
  ghost predicate FirstMapped(cs: seq<Callback>, f: int, j: nat)
    requires j < |cs|
  {
    && cs[j].Mapped? && cs[j].allowed && cs[j].functionId == f
    && forall k :: 0 <= k < j ==> !Mentions(cs[k], f)
  }

  ghost predicate MappedIn(cs: seq<Callback>, f: int) {
    exists j :: 0 <= j < |cs| && FirstMapped(cs, f, j)
  }

  ghost predicate MappedAs(cs: seq<Callback>, f: int, name: string) {
    exists j :: 0 <= j < |cs| && FirstMapped(cs, f, j) && cs[j].name == name
  }

  lemma MentionedMore(cs: seq<Callback>, c: Callback, f: int)
    ensures Mentioned(cs + [c], f) <==> Mentioned(cs, f) || Mentions(c, f)
  {
    var more := cs + [c];
    assert more[|cs|] == c;
    if j :| 0 <= j < |cs| && Mentions(cs[j], f) {
      assert more[j] == cs[j];
    }
  }

  lemma MappedMore(cs: seq<Callback>, c: Callback, f: int, name: string)
    ensures var now := c.Mapped? && c.allowed && c.functionId == f && !Mentioned(cs, f);
            && (MappedIn(cs + [c], f) <==> MappedIn(cs, f) || now)
            && (MappedAs(cs + [c], f, name) <==> MappedAs(cs, f, name) || (now && c.name == name))
  {
    var more := cs + [c];
    assert more[|cs|] == c;
    assert forall j :: 0 <= j < |cs| ==> more[j] == cs[j];
    forall j | 0 <= j < |cs| ensures FirstMapped(more, f, j) <==> FirstMapped(cs, f, j) {
    }
    assert FirstMapped(more, f, |cs|) <==> c.Mapped? && c.allowed && c.functionId == f && !Mentioned(cs, f);
  }

  lemma MappedIsMentioned(cs: seq<Callback>, f: int)
    ensures MappedIn(cs, f) ==> Mentioned(cs, f)
  {
  }

  lemma HeardFunctions(s: Session, c: Callback, f: int)
    ensures var r := Heard(s, c);
            && (f in r.functions <==> f in s.functions || Mentions(c, f))
            && (f in s.functions ==> r.functions[f] == s.functions[f])
            && (f !in s.functions && Mentions(c, f) ==> r.functions[f] == if c.Mapped? then Info(c.name) else NoInfo)
  {
  }

  /** The entries for functions are those first mentioned by a mapping, and empty ones. */
  lemma {:induction false} FunctionsHeard(cs: seq<Callback>, f: int, name: string)
    ensures var functions := HeardAll(cs).functions;
            && (f in functions <==> Mentioned(cs, f))
            && (f in functions && functions[f].Info? <==> MappedIn(cs, f))
            && (f in functions && functions[f] == Info(name) <==> MappedAs(cs, f, name))
    decreases |cs|
  {
    if cs != [] {
      var front, c := Front(cs), Last(cs);
      assert cs == front + [c];
      FunctionsHeard(front, f, name);
      MentionedMore(front, c, f);
      MappedMore(front, c, f, name);
      MappedIsMentioned(front, f);
      HeardFunctions(HeardAll(front), c, f);
      assert HeardAll(cs) == Heard(HeardAll(front), c);
      hide MappedIn, MappedAs, Mentioned, Heard, HeardFrom;
    }
  }

  // ----- the calls entered on a thread

  predicate IsEnter(c: Callback) {
    c.Entered? || c.UnwindEntered?
  }

  predicate IsLeave(c: Callback) {
    c.Left? || c.TailCalled? || c.UnwindLeft?
  }

  /** An enter on the thread that is recorded: of a function with an id, mapped before. */
  ghost predicate Records(before: seq<Callback>, c: Callback, t: int) {
    IsEnter(c) && c.threadId == t && c.functionId != 0 && MappedIn(before, c.functionId)
  }

  /** A leave on the thread, of a function with an id if it says which one. */
  predicate LeavesOn(c: Callback, t: int) {
    IsLeave(c) && c.threadId == t && (c.UnwindLeft? || c.functionId != 0)
  }

  /** Function and time of the recorded enters on a thread, in order. */
  ghost function EnteredOn(cs: seq<Callback>, t: int): seq<(int, Stamp)> {
    if cs == [] then []
    else EnteredOn(Front(cs), t) + if Records(Front(cs), Last(cs), t) then [(Last(cs).functionId, Last(cs).now)] else []
  }

  lemma EnteredMore(cs: seq<Callback>, c: Callback, t: int)
    ensures EnteredOn(cs + [c], t) == EnteredOn(cs, t) + if Records(cs, c, t) then [(c.functionId, c.now)] else []
  {
    assert Front(cs + [c]) == cs;
  }

  /** The recorded enters and, once there is one, the leaves of a thread. */
  ghost function EventsOn(cs: seq<Callback>, t: int): seq<Event> {
    if cs == [] then []
    else
      var front, c := Front(cs), Last(cs);
      if Records(front, c, t) then EventsOn(front, t) + [Enter(c.functionId, c.now)]
      else if LeavesOn(c, t) && EnteredOn(front, t) != [] then EventsOn(front, t) + [Leave(c.now)]
      else EventsOn(front, t)
  }

  predicate AllocatedOn(cs: seq<Callback>, t: int) {
    exists j :: 0 <= j < |cs| && cs[j] == Allocated(t)
  }

  lemma AllocatedMore(cs: seq<Callback>, c: Callback, t: int)
    ensures AllocatedOn(cs + [c], t) <==> AllocatedOn(cs, t) || c == Allocated(t)
  {
    assert (cs + [c])[|cs|] == c;
    if j :| 0 <= j < |cs| && cs[j] == Allocated(t) {
      assert (cs + [c])[j] == cs[j];
    }
  }

  /** The callback enters a function with an entry on the thread. */
  ghost predicate EntersOn(s: Session, c: Callback, t: int) {
    IsEnter(c) && c.threadId == t && c.functionId != 0 && c.functionId in s.functions && s.functions[c.functionId].Info?
  }

  lemma HeardEvents(s: Session, c: Callback, t: int)
    ensures var r := Heard(s, c);
            var was, now := EventsOf(s.events, t), EventsOf(r.events, t);
            && now == (if EntersOn(s, c, t) then was + [Enter(c.functionId, c.now)]
                       else if LeavesOn(c, t) && t in s.events then was + [Leave(c.now)]
                       else was)
            && (t in r.events <==> t in s.events || EntersOn(s, c, t))
            && (t in r.threads <==> t in s.threads || EntersOn(s, c, t) || c == Allocated(t))
  {
  }

  lemma EntersOfMore(events: seq<Event>, e: Event)
    ensures Enters(events + [e]) == Enters(events) + if e.Enter? then [(e.funcId, e.now)] else []
  {
    assert Front(events + [e]) == events;
  }

  /** What one callback does to a thread's enters. */
  lemma HeardEnters(s: Session, c: Callback, t: int)
    requires (t in s.events <==> Enters(EventsOf(s.events, t)) != [])
    ensures var r := Heard(s, c);
            && Enters(EventsOf(r.events, t)) ==
               Enters(EventsOf(s.events, t)) + (if EntersOn(s, c, t) then [(c.functionId, c.now)] else [])
            && (t in r.events <==> Enters(EventsOf(r.events, t)) != [])
            && (t in r.threads <==> t in s.threads || EntersOn(s, c, t) || c == Allocated(t))
  {
    HeardEvents(s, c, t);
    hide Heard, Enters, EventsOf;
    var was := EventsOf(s.events, t);
    if EntersOn(s, c, t) {
      EntersOfMore(was, Enter(c.functionId, c.now));
    } else if LeavesOn(c, t) && t in s.events {
      EntersOfMore(was, Leave(c.now));
    }
  }

  /** The events recorded for a thread, the threads known, and what a leave finds. */
  lemma {:induction false} EntersHeard(cs: seq<Callback>, t: int)
    ensures var s := HeardAll(cs);
            && Enters(EventsOf(s.events, t)) == EnteredOn(cs, t)
            && (t in s.events <==> EnteredOn(cs, t) != [])
            && (t in s.threads <==> EnteredOn(cs, t) != [] || AllocatedOn(cs, t))
    decreases |cs|
  {
    if cs != [] {
      var front, c := Front(cs), Last(cs);
      assert cs == front + [c];
      EntersHeard(front, t);
      HeardEnters(HeardAll(front), c, t);
      AllocatedMore(front, c, t);
      if IsEnter(c) {
        FunctionsHeard(front, c.functionId, "");
      }
      hide AllocatedOn, MappedIn, Enters, EventsOf;
      assert HeardAll(cs) == Heard(HeardAll(front), c);
      hide Heard, HeardFrom;
    }
  }

  /** What is recorded for a thread are its recorded enters and its leaves, whatever happens in between. */
  lemma {:induction false} EventsHeard(cs: seq<Callback>, t: int)
    ensures EventsOf(HeardAll(cs).events, t) == EventsOn(cs, t)
    decreases |cs|
  {
    if cs != [] {
      var front, c := Front(cs), Last(cs);
      EventsHeard(front, t);
      EntersHeard(front, t);
      HeardEvents(HeardAll(front), c, t);
      if IsEnter(c) {
        FunctionsHeard(front, c.functionId, "");
      }
      assert HeardAll(cs) == Heard(HeardAll(front), c);
      hide Heard, HeardFrom, EnteredOn, MappedIn, Enters, EventsOf;
    }
  }

  /** The lines of a thread are one per recorded enter, whatever came in between. */
  lemma LinesListEnters(cs: seq<Callback>, now: Stamp, t: int)
    requires (forall c :: c in cs ==> ClockPositive(c)) && !now.Unset()
    ensures var s := HeardAll(cs);
            var lines := OfThread(Written(Sorted(s.threads), s.events, now), t);
            && WellNumbered(lines) && OnePerEnter(t, lines, EnteredOn(cs, t))
            && forall k :: 0 <= k < |lines| ==> !lines[k].record.leave.Unset()
  {
    EveryThreadWritten(cs, now, t);
    EntersHeard(cs, t);
  }

  /** The `i`-th callback is a leave on a thread that has allocated and has no recorded enter. */
  ghost predicate FollowsNull(cs: seq<Callback>, i: nat, t: int)
    requires i < |cs|
  {
    LeavesOn(cs[i], t) && EnteredOn(cs[..i], t) == [] && AllocatedOn(cs[..i], t)
  }

  /** A session crashes exactly at such a callback. */
  lemma CrashesIff(cs: seq<Callback>, i: nat)
    requires i < |cs|
    ensures CrashesAt(cs, i) <==>
            exists t :: FollowsNull(cs, i, t)
  {
    if IsLeave(cs[i]) {
      var t := cs[i].threadId;
      EntersHeard(cs[..i], t);
      hide HeardFrom, EnteredOn, AllocatedOn;
      assert CrashesAt(cs, i) <==> FollowsNull(cs, i, t);
      assert forall u :: FollowsNull(cs, i, u) ==> u == t;
    }
  }

  lemma CrashesAlongIff(cs: seq<Callback>)
    ensures CrashesAlong(cs) <==> exists i: nat, t :: i < |cs| && FollowsNull(cs, i, t)
  {
    hide FollowsNull, CrashesAt;
    if CrashesAlong(cs) {
      var i :| 0 <= i < |cs| && CrashesAt(cs, i);
      CrashesIff(cs, i);
    }
    if i: nat, t :| i < |cs| && FollowsNull(cs, i, t) {
      CrashesIff(cs, i);
    }
  }

  /** An allocation is attributed to the last recorded enter on its thread. */
  lemma LastCallIff(cs: seq<Callback>, t: int)
    ensures LastCallOf(HeardAll(cs), t) ==
            if EnteredOn(cs, t) == [] then None else Some(|EnteredOn(cs, t)| - 1)
  {
    EntersHeard(cs, t);
  }

  /** The table of names holds exactly the functions whose first mention maps them, under that name, in
      ascending order of their ids. */
  lemma TableOfNames(cs: seq<Callback>)
    ensures var s := HeardAll(cs);
            var table := NamesWritten(Sorted(s.functions.Keys), s.functions);
            && (forall f, name :: (f, name) in table <==> MappedAs(cs, f, name))
            && (forall i, j :: 0 <= i < j < |table| ==> table[i].0 < table[j].0)
  {
    var s := HeardAll(cs);
    var ids := Sorted(s.functions.Keys);
    forall f, name ensures (f, name) in NamesWritten(ids, s.functions) <==> MappedAs(cs, f, name) {
      NamesOfMapped(ids, s.functions, f, name);
      FunctionsHeard(cs, f, name);
    }
    NamesAscend(ids, s.functions);
  }

  /** The ids of the table are among the given ones, ascending. */
  ghost predicate IdsAscend(table: seq<(int, string)>, ids: seq<int>) {
    && (forall i :: 0 <= i < |table| ==> table[i].0 in ids)
    && (forall i, j :: 0 <= i < j < |table| ==> table[i].0 < table[j].0)
  }

  lemma {:induction false} NamesAscend(ids: seq<int>, functions: map<int, Info>)
    requires Ascending(ids)
    ensures IdsAscend(NamesWritten(ids, functions), ids)
    decreases |ids|
  {
    if ids != [] {
      NamesAscend(Front(ids), functions);
      assert Front(ids) + [Last(ids)] == ids;
      AscendMore(NamesWritten(Front(ids), functions), Front(ids), Last(ids));
    }
  }

  lemma AscendMore(table: seq<(int, string)>, ids: seq<int>, id: int)
    requires IdsAscend(table, ids) && forall k :: k in ids ==> k < id
    ensures IdsAscend(table, ids + [id])
    ensures forall name :: IdsAscend(table + [(id, name)], ids + [id])
  {
  }
}
