/** Whole sessions: what a mail server is left with after every message of a connection. */
module Session {
  import opened Wrappers
  import opened Text
  import opened Netip
  import opened Walk
  import opened Authserv
  import opened Milter

  // ---------- The mail server ----------

  /** A result field, as a mail server that is asked for "Authentication-Results" fields counts them: in any letter
      case. */
  predicate NamesResult(f: Field) { ToLower(f.name) == "authentication-results" }

  /** A result field that could be read as carrying our id. */
  predicate ClaimsOurs(id: string, f: Field) {
    ToLower(f.name) == "authentication-results" && Claims(f.value, id)
  }

  /** A result field with a value of ours. */
  function OurField(value: string): Field {
    Field("Authentication-Results", value)
  }

  lemma LowerResultName()
    ensures ToLower(AR) == "authentication-results"
  {
    var lower := "authentication-results";
    assert forall i | 0 <= i < |AR| :: LowerChar(AR[i]) == lower[i];
  }

  /** What the milter counts and marks is what the server counts and what claims our id. */
  lemma MilterMarks(id: string, f: Field)
    ensures IsResult(f) <==> NamesResult(f)
    ensures Forged(id, f) <==> ClaimsOurs(id, f)
  {
    LowerResultName();
  }

  /** How many result fields a header list holds. */
  function Count(fields: seq<Field>): nat {
    if fields == [] then 0 else
    Count(fields[..|fields| - 1]) + (if NamesResult(fields[|fields| - 1]) then 1 else 0)
  }

  /** The list without its n-th result field, the first being number one; positions after it shift. */
  function RemoveNth(fields: seq<Field>, n: nat): seq<Field> {
    if fields == [] then [] else
    var init, last := fields[..|fields| - 1], fields[|fields| - 1];
    if NamesResult(last) && Count(fields) == n then init else RemoveNth(init, n) + [last]
  }

  /** A server that renumbers: each deletion counts the fields that are left. */
  function ApplyShifting(fields: seq<Field>, changes: seq<Change>): seq<Field>
    decreases |changes|
  {
    if changes == [] then fields else
    match changes[0]
    case Delete(n) => ApplyShifting(RemoveNth(fields, n), changes[1..])
    case Insert(v) => ApplyShifting([OurField(v)] + fields, changes[1..])
  }

  function Deleted(changes: seq<Change>): set<nat> {
    set ch | ch in changes && ch.Delete? :: ch.index
  }

  function Inserted(changes: seq<Change>): seq<Field> {
    if changes == [] then [] else
    var last := changes[|changes| - 1];
    (if last.Insert? then [OurField(last.value)] else []) + Inserted(changes[..|changes| - 1])
  }

  /** The fields whose number among the result fields, counted in the message as it came, is not marked. */
  function Unmarked(fields: seq<Field>, marked: set<nat>): seq<Field> {
    if fields == [] then [] else
    var init, last := fields[..|fields| - 1], fields[|fields| - 1];
    Unmarked(init, marked) + (if NamesResult(last) && Count(fields) in marked then [] else [last])
  }

  /** A server that does not renumber: every position counts the fields of the message as it came. */
  function ApplyFixed(fields: seq<Field>, changes: seq<Change>): seq<Field> {
    Inserted(changes) + Unmarked(fields, Deleted(changes))
  }

  // ---------- The intended outcome ----------

  function Kept(id: string, fields: seq<Field>): seq<Field> {
    if fields == [] then [] else
    var last := fields[|fields| - 1];
    Kept(id, fields[..|fields| - 1]) + (if ClaimsOurs(id, last) then [] else [last])
  }

  /** The positions of the forged fields among the result fields. */
  function Positions(id: string, fields: seq<Field>): seq<nat> {
    if fields == [] then [] else
    var last := fields[|fields| - 1];
    Positions(id, fields[..|fields| - 1]) + (if ClaimsOurs(id, last) then [Count(fields)] else [])
  }

  /** A field survives exactly when it is there and either bears another name than "authentication-results", in any
      letter case, or does not claim our id. */
  lemma {:induction false} KeptIff(id: string, fields: seq<Field>, f: Field)
    ensures f in Kept(id, fields)
       <==> f in fields && (ToLower(f.name) != "authentication-results" || !Claims(f.value, id))
    decreases |fields|
  {
    if fields != [] {
      var init, last := Unsnoc(fields);
      KeptIff(id, init, f);
      SnocFields(id, init, last);
    }
  }

  // ---------- Marking while the headers go by ----------

  lemma SnocFields(id: string, init: seq<Field>, last: Field)
    ensures Count(init + [last]) == Count(init) + (if NamesResult(last) then 1 else 0)
    ensures Kept(id, init + [last]) == if ClaimsOurs(id, last) then Kept(id, init) else Kept(id, init) + [last]
    ensures Positions(id, init + [last])
         == if ClaimsOurs(id, last) then Positions(id, init) + [Count(init) + 1] else Positions(id, init)
  {
    var fields := init + [last];
    assert fields[..|fields| - 1] == init;
  }

  lemma RemoveSnoc(init: seq<Field>, last: Field, n: nat)
    ensures RemoveNth(init + [last], n)
         == if NamesResult(last) && Count(init) + 1 == n then init else RemoveNth(init, n) + [last]
  {
    var fields := init + [last];
    SnocFields("", init, last);
    assert fields[..|fields| - 1] == init;
  }

  lemma UnmarkedSnoc(init: seq<Field>, last: Field, marked: set<nat>)
    ensures Unmarked(init + [last], marked) == Unmarked(init, marked) + Survivor(init, last, marked)
  {
    var fields := init + [last];
    SnocFields("", init, last);
    assert fields[..|fields| - 1] == init;
  }

  /** What is left of a field after others. */
  function Survivor(init: seq<Field>, last: Field, marked: set<nat>): seq<Field> {
    if NamesResult(last) && Count(init) + 1 in marked then [] else [last]
  }

  predicate Ascending(ps: seq<nat>, bound: nat) {
    && (forall i | 0 <= i < |ps| :: 1 <= ps[i] <= bound)
    && forall i, j | 0 <= i < j < |ps| :: ps[i] < ps[j]
  }

  lemma {:induction false} PositionsAscend(id: string, fields: seq<Field>)
    ensures Ascending(Positions(id, fields), Count(fields))
    decreases |fields|
  {
    if fields != [] {
      var init, last := Unsnoc(fields);
      PositionsAscend(id, init);
      SnocFields(id, init, last);
    }
  }

  // ---------- Deleting from the highest position down ----------

  lemma DeletionsSnoc(ps: seq<nat>, p: nat)
    ensures Deletions(ps + [p]) == [Delete(p)] + Deletions(ps)
  {
    var longer := ps + [p];
    assert longer[..|longer| - 1] == ps;
  }

  lemma AscendingInit(init: seq<nat>, last: nat, bound: nat)
    requires Ascending(init + [last], bound)
    ensures 1 <= last <= bound && Ascending(init, last - 1)
  {
    var ps := init + [last];
    assert ps[|init|] == last;
    assert forall i | 0 <= i < |init| :: ps[i] == init[i];
  }

  lemma {:induction false} RemoveCount(fields: seq<Field>, n: nat)
    requires 1 <= n <= Count(fields)
    ensures Count(RemoveNth(fields, n)) == Count(fields) - 1
    decreases |fields|
  {
    var init, last := Unsnoc(fields);
    SnocFields("", init, last);
    RemoveSnoc(init, last, n);
    if !(NamesResult(last) && Count(init) + 1 == n) {
      RemoveCount(init, n);
      SnocFields("", RemoveNth(init, n), last);
    }
  }

  lemma ApplyCons(fields: seq<Field>, ch: Change, more: seq<Change>)
    ensures ch.Delete? ==> ApplyShifting(fields, [ch] + more) == ApplyShifting(RemoveNth(fields, ch.index), more)
    ensures ch.Insert? ==> ApplyShifting(fields, [ch] + more) == ApplyShifting([OurField(ch.value)] + fields, more)
  {
    assert ([ch] + more)[1..] == more;
  }

  /** Deletions among the first fields leave a later one alone. */
  lemma {:induction false} DeletionsFrame(fields: seq<Field>, last: Field, ps: seq<nat>)
    requires Ascending(ps, Count(fields))
    ensures ApplyShifting(fields + [last], Deletions(ps)) == ApplyShifting(fields, Deletions(ps)) + [last]
    decreases |ps|
  {
    if ps != [] {
      var init, p := Unsnoc(ps);
      AscendingInit(init, p, Count(fields));
      DeletionsSnoc(init, p);
      ApplyCons(fields, Delete(p), Deletions(init));
      ApplyCons(fields + [last], Delete(p), Deletions(init));
      RemoveSnoc(fields, last, p);
      RemoveCount(fields, p);
      AscendingWiden(init, p - 1, Count(fields) - 1);
      DeletionsFrame(RemoveNth(fields, p), last, init);
    }
  }

  lemma AscendingWiden(ps: seq<nat>, a: nat, b: nat)
    requires Ascending(ps, a) && a <= b
    ensures Ascending(ps, b)
  {
  }

  /** On a server that renumbers, the deletions leave exactly the fields that are not forged, in order. */
  lemma {:induction false} ShiftingStrips(id: string, fields: seq<Field>)
    ensures ApplyShifting(fields, Deletions(Positions(id, fields))) == Kept(id, fields)
    decreases |fields|
  {
    if fields != [] {
      var init, last := Unsnoc(fields);
      ShiftingStrips(id, init);
      SnocFields(id, init, last);
      PositionsAscend(id, init);
      var ps := Positions(id, init);
      if ClaimsOurs(id, last) {
        DeletionsSnoc(ps, Count(init) + 1);
        ApplyCons(fields, Delete(Count(init) + 1), Deletions(ps));
        RemoveSnoc(init, last, Count(init) + 1);
      } else {
        DeletionsFrame(init, last, ps);
      }
    }
  }

  // ---------- Marking on a server that does not renumber ----------

  function Members(ps: seq<nat>): set<nat> {
    set p | p in ps
  }

  lemma MembersSnoc(ps: seq<nat>, p: nat)
    ensures Members(ps + [p]) == Members(ps) + {p}
  {
  }

  lemma {:induction false} DeletedPositions(ps: seq<nat>)
    ensures Deleted(Deletions(ps)) == Members(ps)
    decreases |ps|
  {
    if ps != [] {
      var init, p := Unsnoc(ps);
      DeletedPositions(init);
      DeletionsSnoc(init, p);
      DeletedCons(Delete(p), Deletions(init));
      MembersSnoc(init, p);
    }
  }

  lemma DeletedCons(ch: Change, more: seq<Change>)
    ensures Deleted([ch] + more) == (if ch.Delete? then {ch.index} else {}) + Deleted(more)
  {
    var all := [ch] + more;
    assert all[0] == ch;
    assert forall x :: x in all <==> x == ch || x in more;
    forall n ensures n in Deleted(all) <==> n in (if ch.Delete? then {ch.index} else {}) + Deleted(more) {
      assert n in Deleted(all) <==> exists x :: x in all && x.Delete? && x.index == n;
    }
  }

  /** Marks above the count of a list do not matter to it. */
  lemma {:induction false} UnmarkedBelow(fields: seq<Field>, marked: set<nat>, p: nat)
    requires p > Count(fields)
    ensures Unmarked(fields, marked + {p}) == Unmarked(fields, marked)
    decreases |fields|
  {
    if fields != [] {
      var init, last := Unsnoc(fields);
      SnocFields("", init, last);
      UnmarkedBelow(init, marked, p);
      UnmarkedSnoc(init, last, marked);
      UnmarkedSnoc(init, last, marked + {p});
    }
  }

  lemma NotYetMarked(id: string, fields: seq<Field>)
    ensures Count(fields) + 1 !in Members(Positions(id, fields))
  {
    PositionsAscend(id, fields);
  }

  lemma NewMark(init: seq<Field>, last: Field, marked: set<nat>)
    requires NamesResult(last)
    ensures Unmarked(init + [last], marked + {Count(init) + 1}) == Unmarked(init, marked)
  {
    var n := Count(init) + 1;
    UnmarkedSnoc(init, last, marked + {n});
    assert Survivor(init, last, marked + {n}) == [];
    UnmarkedBelow(init, marked, n);
    assert Unmarked(init, marked) + [] == Unmarked(init, marked);
  }

  lemma MarkedOneMore(init: seq<Field>, last: Field, ps: seq<nat>)
    requires NamesResult(last)
    ensures Unmarked(init + [last], Members(ps + [Count(init) + 1])) == Unmarked(init, Members(ps))
  {
    MembersSnoc(ps, Count(init) + 1);
    NewMark(init, last, Members(ps));
  }

  lemma MarkedAsBefore(init: seq<Field>, last: Field, ps: seq<nat>)
    requires NamesResult(last) ==> Count(init) + 1 !in Members(ps)
    ensures Unmarked(init + [last], Members(ps)) == Unmarked(init, Members(ps)) + [last]
  {
    UnmarkedSnoc(init, last, Members(ps));
  }

  /** On a server that does not renumber, the same deletions leave the same fields. */
  lemma {:induction false} FixedStrips(id: string, fields: seq<Field>)
    ensures Unmarked(fields, Members(Positions(id, fields))) == Kept(id, fields)
    decreases |fields|
  {
    if fields != [] {
      var init, last := Unsnoc(fields);
      FixedStrips(id, init);
      SnocFields(id, init, last);
      if ClaimsOurs(id, last) {
        MarkedOneMore(init, last, Positions(id, init));
      } else {
        NotYetMarked(id, init);
        MarkedAsBefore(init, last, Positions(id, init));
      }
    }
  }

  // ---------- One message ----------

  lemma {:induction false} ApplyConcat(fields: seq<Field>, a: seq<Change>, b: seq<Change>)
    ensures ApplyShifting(fields, a + b) == ApplyShifting(ApplyShifting(fields, a), b)
    decreases |a|
  {
    if a == [] {
      assert a + b == b;
    } else {
      var ch, more := a[0], a[1..];
      assert a == [ch] + more;
      Regroup([ch], more, b);
      ApplyCons(fields, ch, more + b);
      ApplyCons(fields, ch, more);
      ApplyConcat(if ch.Delete? then RemoveNth(fields, ch.index) else [OurField(ch.value)] + fields, more, b);
    }
  }

  lemma InsertedSnoc(changes: seq<Change>, ch: Change)
    ensures Inserted(changes + [ch]) == (if ch.Insert? then [OurField(ch.value)] else []) + Inserted(changes)
  {
    var longer := changes + [ch];
    assert longer[..|longer| - 1] == changes;
  }

  lemma {:induction false} DeletionsInsertNothing(changes: seq<Change>)
    requires forall ch | ch in changes :: ch.Delete?
    ensures Inserted(changes) == []
    decreases |changes|
  {
    if changes != [] {
      var init, last := changes[..|changes| - 1], changes[|changes| - 1];
      assert changes == init + [last] && last in changes;
      DeletionsInsertNothing(init);
      InsertedSnoc(init, last);
    }
  }

  lemma {:induction false} DeletionsDelete(ps: seq<nat>)
    ensures forall ch | ch in Deletions(ps) :: ch.Delete?
    decreases |ps|
  {
    if ps != [] {
      DeletionsDelete(ps[..|ps| - 1]);
    }
  }

  lemma DeletedWithInsert(ds: seq<Change>, v: string)
    ensures Deleted(ds + [Insert(v)]) == Deleted(ds)
  {
    var all := ds + [Insert(v)];
    forall n ensures n in Deleted(all) <==> n in Deleted(ds) {
      assert forall x :: x in all <==> x in ds || x == Insert(v);
      assert n in Deleted(all) <==> exists x :: x in all && x.Delete? && x.index == n;
    }
  }

  /** The changes of one message, with the marked positions right, leave our result followed by the fields that are
      not forged, in their original order, on either kind of server. */
  lemma ChangesStrip(id: string, fields: seq<Field>, stamp: string)
    ensures var changes := Deletions(Positions(id, fields)) + [Insert(stamp)];
            && ApplyShifting(fields, changes) == [OurField(stamp)] + Kept(id, fields)
            && ApplyFixed(fields, changes) == [OurField(stamp)] + Kept(id, fields)
  {
    var ds := Deletions(Positions(id, fields));
    ShiftingStrips(id, fields);
    ApplyConcat(fields, ds, [Insert(stamp)]);
    assert [Insert(stamp)] == [Insert(stamp)] + [];
    ApplyCons(Kept(id, fields), Insert(stamp), []);
    FixedStrips(id, fields);
    DeletedPositions(Positions(id, fields));
    DeletedWithInsert(ds, stamp);
    DeletionsDelete(Positions(id, fields));
    DeletionsInsertNothing(ds);
    InsertedSnoc(ds, Insert(stamp));
  }

  // ---------- Whole sessions ----------

  /** A message of a connection: its headers, and how it ends. A finished message is evaluated over some network; an
      aborted one never reaches its end. */
  datatype Mail = Mail(headers: seq<Field>, finish: Option<Network>)

  function HeaderEvents(headers: seq<Field>): (evs: seq<Event>)
    ensures |evs| == |headers|
  {
    seq(|headers|, i requires 0 <= i < |headers| => Header(headers[i]))
  }

  function MailEvents(m: Mail): seq<Event> {
    [MailFrom] + HeaderEvents(m.headers) + [if m.finish.Some? then Body(m.finish.value) else Abort]
  }

  function SessionEvents(messages: seq<Mail>): seq<Event> {
    if messages == [] then [] else MailEvents(messages[0]) + SessionEvents(messages[1..])
  }

  function RunState(c: Config, s: State, events: seq<Event>): State
    decreases |events|
  {
    if events == [] then s else RunState(c, StepState(c, s, events[0]), events[1..])
  }

  /** The change lists the milter emits over a run, one for each message it sees end. */
  function RunChanges(c: Config, s: State, events: seq<Event>): seq<seq<Change>>
    decreases |events|
  {
    if events == [] then [] else
    var ev := events[0];
    (if ev.Body? then [StepChanges(c, s, ev)] else []) + RunChanges(c, StepState(c, s, ev), events[1..])
  }

  lemma RunCons(c: Config, s: State, ev: Event, more: seq<Event>)
    ensures RunState(c, s, [ev] + more) == RunState(c, StepState(c, s, ev), more)
    ensures RunChanges(c, s, [ev] + more)
         == (if ev.Body? then [StepChanges(c, s, ev)] else []) + RunChanges(c, StepState(c, s, ev), more)
  {
    var events := [ev] + more;
    assert events[0] == ev && events[1..] == more;
  }

  lemma {:induction false} RunConcat(c: Config, s: State, a: seq<Event>, b: seq<Event>)
    ensures RunState(c, s, a + b) == RunState(c, RunState(c, s, a), b)
    ensures RunChanges(c, s, a + b) == RunChanges(c, s, a) + RunChanges(c, RunState(c, s, a), b)
    decreases |a|
  {
    if a == [] {
      assert a + b == b;
    } else {
      var ev, more := Uncons(a);
      Regroup([ev], more, b);
      RunConcat(c, StepState(c, s, ev), more, b);
      RunCons(c, s, ev, more + b);
      RunCons(c, s, ev, more);
      Regroup(if ev.Body? then [StepChanges(c, s, ev)] else [], RunChanges(c, StepState(c, s, ev), more),
              RunChanges(c, RunState(c, s, a), b));
    }
  }

  /** Header by header, the milter counts the result fields and remembers where the forged ones stand. */
  lemma {:induction false} HeadersMark(c: Config, source: Option<Addr>, headers: seq<Field>)
    ensures RunState(c, State(source, [], 0), HeaderEvents(headers))
         == State(source, Positions(c.authservId, headers), Count(headers))
    ensures RunChanges(c, State(source, [], 0), HeaderEvents(headers)) == []
    decreases |headers|
  {
    if headers != [] {
      var init, last := Unsnoc(headers);
      HeadersMark(c, source, init);
      HeaderEventsSnoc(init, last);
      RunConcat(c, State(source, [], 0), HeaderEvents(init), [Header(last)]);
      HeaderStep(c, source, init, last);
    }
  }

  lemma HeaderEventsSnoc(init: seq<Field>, last: Field)
    ensures HeaderEvents(init + [last]) == HeaderEvents(init) + [Header(last)]
  {
  }

  lemma StepMarks(c: Config, source: Option<Addr>, ps: seq<nat>, n: nat, f: Field)
    ensures StepState(c, State(source, ps, n), Header(f))
         == State(source, if ClaimsOurs(c.authservId, f) then ps + [n + 1] else ps, if NamesResult(f) then n + 1 else n)
  {
    MilterMarks(c.authservId, f);
  }

  lemma HeaderStep(c: Config, source: Option<Addr>, init: seq<Field>, last: Field)
    ensures var s := State(source, Positions(c.authservId, init), Count(init));
            && RunState(c, s, [Header(last)])
               == State(source, Positions(c.authservId, init + [last]), Count(init + [last]))
            && RunChanges(c, s, [Header(last)]) == []
  {
    SnocFields(c.authservId, init, last);
    StepMarks(c, source, Positions(c.authservId, init), Count(init), last);
    OneEvent(c, State(source, Positions(c.authservId, init), Count(init)), Header(last));
  }

  lemma OneEvent(c: Config, s: State, ev: Event)
    ensures RunState(c, s, [ev]) == StepState(c, s, ev)
    ensures RunChanges(c, s, [ev]) == if ev.Body? then [StepChanges(c, s, ev)] else []
  {
    assert [ev][1..] == [];
  }

  /** One message, from whatever an earlier one left behind: the source survives, and a finished message yields exactly
      the changes for its own forged fields. */
  lemma MailRun(c: Config, s: State, m: Mail)
    ensures RunState(c, s, MailEvents(m)) == State(s.source, Positions(c.authservId, m.headers), Count(m.headers))
    ensures RunChanges(c, s, MailEvents(m))
         == if m.finish.Some?
            then [Deletions(Positions(c.authservId, m.headers)) + [Insert(Stamp(c, s.source, m.finish.value))]] else []
  {
    var last := if m.finish.Some? then Body(m.finish.value) else Abort;
    var marked := State(s.source, Positions(c.authservId, m.headers), Count(m.headers));
    OneEvent(c, s, MailFrom);
    HeadersMark(c, s.source, m.headers);
    OneEvent(c, marked, last);
    RunConcat(c, s, [MailFrom], HeaderEvents(m.headers));
    RunConcat(c, s, [MailFrom] + HeaderEvents(m.headers), [last]);
  }

  /** What each finished message of a session must become: our result for the connection's own source, then the fields
      that did not claim our id, in original order. */
  ghost predicate Stripped(c: Config, source: Option<Addr>, messages: seq<Mail>, outputs: seq<seq<Change>>)
    decreases |messages|
  {
    if messages == [] then outputs == [] else
    var m := messages[0];
    if m.finish.None? then Stripped(c, source, messages[1..], outputs) else
    && outputs != []
    && (var wanted := [OurField(Stamp(c, source, m.finish.value))] + Kept(c.authservId, m.headers);
        ApplyShifting(m.headers, outputs[0]) == wanted == ApplyFixed(m.headers, outputs[0]))
    && Stripped(c, source, messages[1..], outputs[1..])
  }

  lemma {:induction false} MailStripped(c: Config, s: State, messages: seq<Mail>)
    ensures Stripped(c, s.source, messages, RunChanges(c, s, SessionEvents(messages)))
    ensures RunState(c, s, SessionEvents(messages)).source == s.source
    decreases |messages|
  {
    if messages != [] {
      var m, more := messages[0], messages[1..];
      MailRun(c, s, m);
      RunConcat(c, s, MailEvents(m), SessionEvents(more));
      var next := RunState(c, s, MailEvents(m));
      MailStripped(c, next, more);
      var outputs := RunChanges(c, s, SessionEvents(messages));
      if m.finish.Some? {
        var stamp := Stamp(c, s.source, m.finish.value);
        ChangesStrip(c.authservId, m.headers, stamp);
        assert outputs[1..] == RunChanges(c, next, SessionEvents(more));
      } else {
        assert outputs == RunChanges(c, next, SessionEvents(more));
      }
    }
  }

  /** The address the milter keeps from the connection, if any. */
  function Captured(addr: Option<Addr>): Option<Addr> {
    if addr.Some? then Some(addr.value.Unmap()) else None
  }

  /** Over every session (one connection, then any number of messages, each finished or aborted), every finished message
      ends up as our result for the connecting source followed by exactly the fields that did not claim our id, whether
      or not the mail server renumbers after a deletion; and the captured source survives every message. */
  lemma SessionStrips(c: Config, addr: Option<Addr>, messages: seq<Mail>)
    ensures var events := [Connect(addr)] + SessionEvents(messages);
            && Stripped(c, Captured(addr), messages, RunChanges(c, INITIAL, events))
            && RunState(c, INITIAL, events).source == Captured(addr)
  {
    var connected := StepState(c, INITIAL, Connect(addr));
    OneEvent(c, INITIAL, Connect(addr));
    RunConcat(c, INITIAL, [Connect(addr)], SessionEvents(messages));
    MailStripped(c, connected, messages);
    assert [] + RunChanges(c, connected, SessionEvents(messages)) == RunChanges(c, connected, SessionEvents(messages));
  }
}
