/** What the alarm scheduler does, told in unbounded ticks: which alarms run, when each is
    due next, when it fired.  Each operation of the scheduler is one function here, and
    the laws of the scheduler are proved about these functions. */
module AlarmBook {
  import opened AlarmList
  import opened AlarmTime
  import opened Words

  /** An alarm's true next tick, and the ticks at which it fired since it was started. */
  datatype Job = Job(deadline: nat, fired: seq<nat>)

  /** Something a callback does: start an alarm, or stop its own. */
  datatype Deed = Starts(b: Alarm, interval: U32) | Stops

  /** A callback: what it does, then what it answers. */
  datatype Turn = Turn(deeds: seq<Deed>, answer: U32)

  /** How every alarm's callback behaves, should it be made. */
  type Script = Alarm -> Turn

  /** Whether there is a system clock, the ticks so far, the running alarms in list order,
      their jobs, and all callbacks made. */
  datatype Book = Book(clock: bool, now: nat, list: seq<Alarm>, jobs: map<Alarm, Job>, calls: seq<Alarm>)

  function JobOf(k: Book, a: Alarm): Job {
    if a in k.jobs then k.jobs[a] else Job(0, [])
  }

  // ------------------------------------------------------------------ taking alarms out

  /** `s` with the members of `gone` taken out, order kept. */
  ghost function Minus(s: seq<Alarm>, gone: set<Alarm>): seq<Alarm> {
    if s == [] then []
    else Minus(s[..|s| - 1], gone) + (if s[|s| - 1] in gone then [] else [s[|s| - 1]])
  }

  lemma {:induction false} MinusMembers(s: seq<Alarm>, gone: set<Alarm>)
    ensures forall a :: a in Minus(s, gone) <==> a in s && a !in gone
  {
    if s != [] {
      MinusMembers(s[..|s| - 1], gone);
      assert s == s[..|s| - 1] + [s[|s| - 1]];
    }
  }

  lemma MinusSnoc(s: seq<Alarm>, x: Alarm, gone: set<Alarm>)
    ensures Minus(s + [x], gone) == Minus(s, gone) + (if x in gone then [] else [x])
  {
    assert (s + [x])[..|s|] == s;
  }

  lemma {:induction false} MinusConcat(s: seq<Alarm>, t: seq<Alarm>, gone: set<Alarm>)
    ensures Minus(s + t, gone) == Minus(s, gone) + Minus(t, gone)
  {
    if t == [] {
      assert s + t == s;
    } else {
      var t0, x := t[..|t| - 1], t[|t| - 1];
      MinusConcat(s, t0, gone);
      MinusSnoc(s + t0, x, gone);
      MinusSnoc(t0, x, gone);
      hide Minus;
      assert t == t0 + [x] && s + t == s + t0 + [x];
    }
  }

  lemma {:induction false} MinusNone(s: seq<Alarm>, gone: set<Alarm>)
    requires forall a :: a in s ==> a !in gone
    ensures Minus(s, gone) == s
  {
    if s != [] {
      MinusNone(s[..|s| - 1], gone);
    }
  }

  // Members that do not occur make no difference.
  lemma {:induction false} MinusIrrelevant(s: seq<Alarm>, gone: set<Alarm>, a: Alarm)
    requires a !in s
    ensures Minus(s, gone + {a}) == Minus(s, gone)
  {
    if s != [] {
      MinusIrrelevant(s[..|s| - 1], gone, a);
    }
  }

  lemma MinusLast(s: seq<Alarm>, gone: set<Alarm>, i: nat)
    requires i < |s|
    ensures Minus(s[..i + 1], gone) == Minus(s[..i], gone) + (if s[i] in gone then [] else [s[i]])
  {
    assert s[..i + 1][..i] == s[..i];
  }

  lemma MinusSelf(a: Alarm)
    ensures Minus([a], {a}) == []
  {
    assert [a][..0] == [];
  }

  // Taking `a` out of pieces of which only the first and the optional middle one hold it.
  lemma MinusPieces(front: seq<Alarm>, s: seq<Alarm>, a: Alarm, held: bool, t: seq<Alarm>)
    requires a !in s && a !in t
    ensures Minus(front + s + (if held then [a] else []) + t, {a}) == Minus(front, {a}) + s + [] + t
  {
    hide Minus;
    var mid := if held then [a] else [];
    MinusConcat(front + s + mid, t, {a});
    MinusConcat(front + s, mid, {a});
    MinusConcat(front, s, {a});
    MinusNone(s, {a});
    MinusNone(t, {a});
    MinusSelf(a);
    MinusNone([], {a});
  }

  predicate Once(s: seq<Alarm>) { forall i, j :: 0 <= i < j < |s| ==> s[i] != s[j] }

  lemma {:induction false} MinusOnce(s: seq<Alarm>, gone: set<Alarm>)
    requires Once(s)
    ensures Once(Minus(s, gone))
  {
    if s != [] {
      MinusOnce(s[..|s| - 1], gone);
      MinusMembers(s[..|s| - 1], gone);
      assert s[|s| - 1] !in s[..|s| - 1];
    }
  }

  // Taking out the k-th of distinct members.
  lemma MinusAt(s: seq<Alarm>, k: nat, a: Alarm)
    requires k < |s| && s[k] == a && forall j :: 0 <= j < |s| && j != k ==> s[j] != a
    ensures Minus(s, {a}) == Without(s, k)
  {
    assert s == [] + s[..k] + [a] + s[k + 1..];
    MinusPieces([], s[..k], a, true, s[k + 1..]);
    MinusNone([], {a});
    assert [] + s[..k] + [] + s[k + 1..] == Without(s, k);
  }

  // ------------------------------------------------------------------ the operations

  /** alt_alarm_start, for an alarm that is not running. */
  function Begun(k: Book, b: Alarm, interval: U32): Book {
    if k.clock then k.(list := [b] + k.list, jobs := k.jobs[b := Job(k.now + interval + 1, [])]) else k
  }

  /** alt_alarm_stop */
  ghost function Ended(k: Book, a: Alarm): Book { k.(list := Minus(k.list, {a})) }

  /** A callback does not start an alarm that is running. */
  ghost function Did(k: Book, a: Alarm, d: Deed): Book {
    match d
    case Starts(b, interval) => if b in k.list then k else Begun(k, b, interval)
    case Stops => Ended(k, a)
  }

  ghost function DidAll(k: Book, a: Alarm, deeds: seq<Deed>): Book {
    if deeds == [] then k else Did(DidAll(k, a, deeds[..|deeds| - 1]), a, deeds[|deeds| - 1])
  }

  function Called(k: Book, a: Alarm): Book {
    k.(jobs := k.jobs[a := JobOf(k, a).(fired := JobOf(k, a).fired + [k.now])], calls := k.calls + [a])
  }

  /** Zero ends the alarm; otherwise, if it is running, it is due that much later. */
  ghost function Answered(k: Book, a: Alarm, answer: U32): Book {
    if answer == 0 then Ended(k, a)
    else if a in k.list then k.(jobs := k.jobs[a := JobOf(k, a).(deadline := JobOf(k, a).deadline + answer)])
    else k
  }

  /** The callback of an alarm that is due. */
  ghost function Turned(k: Book, a: Alarm, t: Turn): Book {
    Answered(DidAll(Called(k, a), a, t.deeds), a, t.answer)
  }

  /** Those of `list` due at the current tick, in order. */
  ghost function DueOf(k: Book, list: seq<Alarm>): seq<Alarm> {
    if list == [] then [] else
      var a := list[|list| - 1];
      DueOf(k, list[..|list| - 1]) + (if JobOf(k, a).deadline == k.now then [a] else [])
  }

  ghost function Turns(k: Book, due: seq<Alarm>, script: Script): Book {
    if due == [] then k else
      var a := due[|due| - 1];
      Turned(Turns(k, due[..|due| - 1], script), a, script(a))
  }

  function Next(k: Book): Book { k.(now := k.now + 1) }

  /** alt_tick: the callbacks of the alarms due at the new tick, in list order. */
  ghost function Ticked(k: Book, script: Script): Book {
    Turns(Next(k), DueOf(Next(k), k.list), script)
  }

  predicate Ends(t: Turn) { t.answer == 0 || Stops in t.deeds }

  // ------------------------------------------------------------------ one callback

  /** `job` is what one of the deeds gives alarm `b` by starting it, `more` ticks on. */
  predicate StartedBy(now: nat, deeds: seq<Deed>, b: Alarm, more: nat, job: Job) {
    exists d :: d in deeds && d.Starts? && d.b == b && job == Job(now + d.interval + 1 + more, [])
  }

  /** Between `k` and `l`, alarm `c` kept running with its job, or kept idle, or was started
      by one of the deeds. */
  predicate Kept(k: Book, l: Book, c: Alarm, deeds: seq<Deed>) {
    && l.now == k.now && l.clock == k.clock
    && (c in k.list ==> c in l.list && JobOf(l, c) == JobOf(k, c))
    && (c !in k.list ==> if c in l.list then StartedBy(k.now, deeds, c, 0, JobOf(l, c)) else JobOf(l, c) == JobOf(k, c))
  }

  lemma DeedKeeps(k: Book, l: Book, a: Alarm, before: seq<Deed>, d: Deed, c: Alarm)
    requires c != a && Kept(k, l, c, before)
    ensures Kept(k, Did(l, a, d), c, before + [d])
  {
    MinusMembers(l.list, {a});
    hide Minus;
    assert d in before + [d] && forall e :: e in before ==> e in before + [d];
  }

  lemma {:induction false} DeedsKeep(k: Book, a: Alarm, deeds: seq<Deed>, c: Alarm)
    requires c != a
    ensures Kept(k, DidAll(k, a, deeds), c, deeds)
  {
    if deeds != [] {
      var before, d := deeds[..|deeds| - 1], deeds[|deeds| - 1];
      DeedsKeep(k, a, before, c);
      hide Did, Kept;
      DeedKeeps(k, DidAll(k, a, before), a, before, d, c);
      assert deeds == before + [d];
    }
  }

  lemma {:induction false} DeedsCallNobody(k: Book, a: Alarm, deeds: seq<Deed>)
    ensures DidAll(k, a, deeds).calls == k.calls
  {
    if deeds != [] {
      DeedsCallNobody(k, a, deeds[..|deeds| - 1]);
    }
  }

  /** The alarm whose callback it is: untouched until it stops itself, then idle or started
      anew by one of the deeds. */
  predicate Own(k: Book, l: Book, a: Alarm, deeds: seq<Deed>) {
    && l.now == k.now && l.clock == k.clock
    && (Stops !in deeds ==> a in l.list && JobOf(l, a) == JobOf(k, a))
    && (Stops in deeds && a in l.list ==> StartedBy(k.now, deeds, a, 0, JobOf(l, a)))
  }

  lemma DeedOwn(k: Book, l: Book, a: Alarm, before: seq<Deed>, d: Deed)
    requires Own(k, l, a, before)
    ensures Own(k, Did(l, a, d), a, before + [d])
  {
    MinusMembers(l.list, {a});
    hide Minus;
    assert d in before + [d] && forall e :: e in before ==> e in before + [d];
  }

  lemma {:induction false} DeedsOwn(k: Book, a: Alarm, deeds: seq<Deed>)
    requires a in k.list
    ensures Own(k, DidAll(k, a, deeds), a, deeds)
  {
    if deeds != [] {
      var before, d := deeds[..|deeds| - 1], deeds[|deeds| - 1];
      DeedsOwn(k, a, before);
      hide Did, Own;
      DeedOwn(k, DidAll(k, a, before), a, before, d);
      assert deeds == before + [d];
    }
  }

  /** The intervals a callback asks for can be represented: see AlarmTime.FirstFiring and
      AlarmTime.RearmInSync. */
  predicate Allowed(a: Alarm, t: Turn) {
    forall d :: d in t.deeds && d.Starts? ==>
      d.interval != WRAP - 1 && (d.b == a && t.answer > 0 ==> d.interval + 1 + t.answer < WRAP)
  }

  lemma DeedsRoom(k: Book, a: Alarm, deeds: seq<Deed>, answer: nat)
    requires a in k.list && forall d :: d in deeds && d.Starts? && d.b == a ==> d.interval + 1 + answer < WRAP
    ensures Stops in deeds && a in DidAll(k, a, deeds).list
            ==> JobOf(DidAll(k, a, deeds), a).deadline + answer < k.now + WRAP
  {
    DeedsOwn(k, a, deeds);
    hide DidAll;
  }

  // How the list changes: alarms are put in front, and the own one may be taken out.
  lemma {:induction false} DeedsList(k: Book, a: Alarm, deeds: seq<Deed>,
                                     front: seq<Alarm>, s: seq<Alarm>, t: seq<Alarm>)
    returns (front1: seq<Alarm>)
    requires k.list == front + s + [a] + t && a !in front && a !in s && a !in t
    ensures DidAll(k, a, deeds).list == front1 + s + (if Stops in deeds then [] else [a]) + t
    ensures forall b :: b in front1 ==> b in front || b !in k.list || (b == a && Stops in deeds)
  {
    front1 := front;
    if deeds != [] {
      var before, d := deeds[..|deeds| - 1], deeds[|deeds| - 1];
      front1 := DeedsList(k, a, before, front, s, t);
      front1 := DeedList(k, DidAll(k, a, before), a, d, Stops in before, front, front1, s, t);
      assert deeds == before + [d];
    }
  }

  lemma DeedList(k: Book, l: Book, a: Alarm, d: Deed, stopped: bool, front0: seq<Alarm>, front: seq<Alarm>,
                 s: seq<Alarm>, t: seq<Alarm>)
    returns (front1: seq<Alarm>)
    requires l.list == front + s + (if stopped then [] else [a]) + t && a !in s && a !in t
    requires k.list == front0 + s + [a] + t
    requires forall b :: b in front ==> b in front0 || b !in k.list || (b == a && stopped)
    ensures Did(l, a, d).list == front1 + s + (if stopped || d.Stops? then [] else [a]) + t
    ensures forall b :: b in front1 ==> b in front0 || b !in k.list || (b == a && (stopped || d.Stops?))
  {
    front1 := front;
    if d.Stops? {
      MinusPieces(front, s, a, !stopped, t);
      MinusMembers(front, {a});
      front1 := Minus(front, {a});
    } else if d.b !in l.list && l.clock {
      front1 := [d.b] + front;
      var mid := if stopped then [] else [a];
      assert [d.b] + (front + s + mid + t) == front1 + s + mid + t;
    }
  }

  // One callback: the list, its own job, and that nobody else's is touched.
  lemma TurnList(k: Book, a: Alarm, turn: Turn, front: seq<Alarm>, s: seq<Alarm>, t: seq<Alarm>)
    returns (front1: seq<Alarm>)
    requires k.list == front + s + [a] + t && a !in front && a !in s && a !in t
    ensures Turned(k, a, turn).list == front1 + s + (if Ends(turn) then [] else [a]) + t
    ensures forall b :: b in front1 ==> b in front || b !in k.list || (b == a && Ends(turn))
  {
    front1 := DeedsList(Called(k, a), a, turn.deeds, front, s, t);
    hide DidAll, Minus;
    if turn.answer == 0 {
      MinusPieces(front1, s, a, Stops !in turn.deeds, t);
      MinusMembers(front1, {a});
      front1 := Minus(front1, {a});
    }
  }

  lemma TurnKeeps(k: Book, a: Alarm, turn: Turn, c: Alarm)
    requires c != a
    ensures Kept(k, Turned(k, a, turn), c, turn.deeds) && Turned(k, a, turn).calls == k.calls + [a]
  {
    hide DidAll, Minus, StartedBy;
    DeedsKeep(Called(k, a), a, turn.deeds, c);
    DeedsCallNobody(Called(k, a), a, turn.deeds);
    MinusMembers(DidAll(Called(k, a), a, turn.deeds).list, {a});
  }

  // A callback that starts its own alarm anew and answers is due after both intervals.
  lemma AnsweredAgain(now: nat, deeds: seq<Deed>, a: Alarm, j: Job, answer: nat)
    requires StartedBy(now, deeds, a, 0, j)
    ensures StartedBy(now, deeds, a, answer, j.(deadline := j.deadline + answer))
  {
    var d :| d in deeds && d.Starts? && d.b == a && j == Job(now + d.interval + 1 + 0, []);
  }

  lemma TurnOwn(k: Book, a: Alarm, turn: Turn)
    requires a in k.list
    ensures var l := Turned(k, a, turn);
      && l.now == k.now && l.clock == k.clock && l.calls == k.calls + [a]
      && (!Ends(turn) ==>
            && a in l.list
            && JobOf(l, a) == Job(JobOf(k, a).deadline + turn.answer, JobOf(k, a).fired + [k.now]))
      && (Ends(turn) && a in l.list ==> StartedBy(k.now, turn.deeds, a, turn.answer, JobOf(l, a)))
      && (turn.answer == 0 ==> a !in l.list)
      && (turn.answer == 0 && Stops !in turn.deeds ==> JobOf(l, a).fired == JobOf(k, a).fired + [k.now])
  {
    var l := DidAll(Called(k, a), a, turn.deeds);
    DeedsOwn(Called(k, a), a, turn.deeds);
    DeedsCallNobody(Called(k, a), a, turn.deeds);
    MinusMembers(l.list, {a});
    hide DidAll, Minus, StartedBy;
    if Stops in turn.deeds && a in l.list {
      AnsweredAgain(k.now, turn.deeds, a, JobOf(l, a), turn.answer);
    }
  }

  // ------------------------------------------------------------------ one tick

  /** Of the first `i` alarms, those whose callback ends them at this tick. */
  ghost function Gone(s: Book, script: Script, i: nat): set<Alarm>
    requires i <= |s.list|
  {
    set a | a in s.list[..i] && JobOf(s, a).deadline == s.now && Ends(script(a))
  }

  /** The job after the tick of an alarm that is not ended. */
  function NextJob(s: Book, script: Script, a: Alarm): Job {
    if JobOf(s, a).deadline == s.now then Job(s.now + script(a).answer, JobOf(s, a).fired + [s.now]) else JobOf(s, a)
  }

  /** `job` is what a callback made at this tick gives alarm `b` by starting it; if it is
      its own alarm, its answer comes on top. */
  ghost predicate Started(s: Book, script: Script, b: Alarm, job: Job) {
    exists a :: a in s.list && JobOf(s, a).deadline == s.now
      && StartedBy(s.now, script(a).deeds, b, if a == b then script(a).answer else 0, job)
  }

  lemma StartedLater(s: Book, script: Script, b: Alarm, job: Job)
    requires Started(s, script, b, job)
    ensures job.fired == [] && job.deadline > s.now
  {
  }

  ghost function Walked(s: Book, script: Script, i: nat): Book
    requires i <= |s.list|
  {
    Turns(s, DueOf(s, s.list[..i]), script)
  }

  lemma TurnsLast(k: Book, due: seq<Alarm>, a: Alarm, script: Script)
    ensures Turns(k, due + [a], script) == Turned(Turns(k, due, script), a, script(a))
  {
    assert (due + [a])[..|due|] == due;
  }

  lemma DueLast(s: Book, list: seq<Alarm>, i: nat)
    requires i < |list|
    ensures DueOf(s, list[..i + 1])
            == DueOf(s, list[..i]) + (if JobOf(s, list[i]).deadline == s.now then [list[i]] else [])
  {
    assert list[..i + 1][..i] == list[..i];
  }

  lemma WalkedStep(s: Book, script: Script, i: nat)
    requires i < |s.list|
    ensures Walked(s, script, i + 1)
            == if JobOf(s, s.list[i]).deadline == s.now then Turned(Walked(s, script, i), s.list[i], script(s.list[i]))
               else Walked(s, script, i)
  {
    DueLast(s, s.list, i);
    hide DueOf, Turned, Turns;
    TurnsLast(s, DueOf(s, s.list[..i]), s.list[i], script);
    assert DueOf(s, s.list[..i]) + [] == DueOf(s, s.list[..i]);
  }

  /** Part-way through a tick that began as `s`: the alarms started meanwhile, the visited
      ones that stay, and the ones still to be visited, each with its job. */
  ghost predicate Shape(s: Book, script: Script, i: nat, k: Book, front: seq<Alarm>)
    requires i <= |s.list|
  {
    && k.now == s.now && k.clock == s.clock && k.calls == s.calls + DueOf(s, s.list[..i])
    && k.list == front + Minus(s.list[..i], Gone(s, script, i)) + s.list[i..]
    && (forall b :: b in front ==> Started(s, script, b, JobOf(k, b)) && (b !in s.list || b in Gone(s, script, i)))
    && (forall b :: b in s.list && b !in Gone(s, script, i) ==>
          JobOf(k, b) == if b in s.list[i..] then JobOf(s, b) else NextJob(s, script, b))
  }

  lemma ShapeStarts(s: Book, script: Script)
    ensures Walked(s, script, 0) == s && Shape(s, script, 0, s, [])
  {
    assert s.list[..0] == [] && s.list[0..] == s.list;
    assert [] + Minus([], {}) + s.list == s.list;
  }

  lemma GoneStep(s: Book, script: Script, i: nat)
    requires i < |s.list| && Once(s.list)
    ensures s.list[i] !in s.list[..i] && s.list[i] !in s.list[i + 1..] && s.list[i] !in Gone(s, script, i)
    ensures s.list[i..] == [s.list[i]] + s.list[i + 1..] && s.list[..i + 1] == s.list[..i] + [s.list[i]]
    ensures Gone(s, script, i + 1) == Gone(s, script, i)
            + if JobOf(s, s.list[i]).deadline == s.now && Ends(script(s.list[i])) then {s.list[i]} else {}
  {
  }

  // The list around the i-th alarm, regrouped once it has been visited.
  lemma Regroup(s: Book, script: Script, i: nat, front: seq<Alarm>, ended: bool)
    requires i < |s.list| && Once(s.list)
    requires ended == (JobOf(s, s.list[i]).deadline == s.now && Ends(script(s.list[i])))
    ensures front + Minus(s.list[..i], Gone(s, script, i)) + (if ended then [] else [s.list[i]]) + s.list[i + 1..]
            == front + Minus(s.list[..i + 1], Gone(s, script, i + 1)) + s.list[i + 1..]
  {
    var a, gone := s.list[i], Gone(s, script, i);
    GoneStep(s, script, i);
    MinusIrrelevant(s.list[..i], gone, a);
    MinusLast(s.list, Gone(s, script, i + 1), i);
    hide Minus, Gone;
    var kept := Minus(s.list[..i], gone);
    assert gone + {} == gone;
    assert front + (kept + [a]) == front + kept + [a] && front + (kept + []) == front + kept + [];
  }

  lemma FrontStep(s: Book, script: Script, i: nat, k: Book, front: seq<Alarm>, b: Alarm)
    requires i < |s.list| && Once(s.list) && Shape(s, script, i, k, front) && JobOf(s, s.list[i]).deadline == s.now
    requires b in Turned(k, s.list[i], script(s.list[i])).list
    requires b in front || b !in k.list || (b == s.list[i] && Ends(script(s.list[i])))
    ensures Started(s, script, b, JobOf(Turned(k, s.list[i], script(s.list[i])), b))
    ensures b !in s.list || b in Gone(s, script, i + 1)
  {
    var a := s.list[i];
    GoneStep(s, script, i);
    if b != a {
      FrontOrGone(s, script, i, k, front, b);
    }
    hide Ends, DueOf, Gone, Once, Turned, Minus, StartedBy;
    assert a in k.list;
    if b == a {
      TurnOwn(k, a, script(a));
    } else {
      TurnKeeps(k, a, script(a), b);
    }
  }

  lemma FrontOrGone(s: Book, script: Script, i: nat, k: Book, front: seq<Alarm>, b: Alarm)
    requires i < |s.list| && Once(s.list) && Shape(s, script, i, k, front)
    requires b != s.list[i] && (b in front || b !in k.list)
    ensures b !in s.list || b in Gone(s, script, i + 1)
  {
    GoneStep(s, script, i);
    MinusMembers(s.list[..i], Gone(s, script, i));
    hide Ends, DueOf, Gone, Once, Minus, Started, NextJob, JobOf;
    assert s.list == s.list[..i] + ([s.list[i]] + s.list[i + 1..]);
  }

  lemma JobsStep(s: Book, script: Script, i: nat, k: Book, front: seq<Alarm>, b: Alarm)
    requires i < |s.list| && Once(s.list) && Shape(s, script, i, k, front) && JobOf(s, s.list[i]).deadline == s.now
    requires b in s.list && b !in Gone(s, script, i + 1)
    ensures JobOf(Turned(k, s.list[i], script(s.list[i])), b)
            == if b in s.list[i + 1..] then JobOf(s, b) else NextJob(s, script, b)
  {
    var a := s.list[i];
    GoneStep(s, script, i);
    MinusMembers(s.list[..i], Gone(s, script, i));
    assert b == a ==> !Ends(script(a));
    hide Ends, DueOf, Gone, Once, Turned, Minus;
    assert s.list == s.list[..i] + ([a] + s.list[i + 1..]);
    assert a in k.list;
    if b == a {
      TurnOwn(k, a, script(a));
    } else {
      TurnKeeps(k, a, script(a), b);
    }
  }

  lemma ShapeList(s: Book, script: Script, i: nat, k: Book, front: seq<Alarm>)
    requires i < |s.list| && Once(s.list) && Shape(s, script, i, k, front)
    ensures var a, done, later := s.list[i], Minus(s.list[..i], Gone(s, script, i)), s.list[i + 1..];
      k.list == front + done + [a] + later && a !in front && a !in done && a !in later && a in k.list
    ensures JobOf(k, s.list[i]) == JobOf(s, s.list[i]) && k.now == s.now && k.clock == s.clock
    ensures k.calls == s.calls + DueOf(s, s.list[..i])
  {
    GoneStep(s, script, i);
    MinusMembers(s.list[..i], Gone(s, script, i));
    hide Minus, DueOf, Ends, Once, Started, Gone;
    var front1 := front + Minus(s.list[..i], Gone(s, script, i));
    assert front1 + ([s.list[i]] + s.list[i + 1..]) == front1 + [s.list[i]] + s.list[i + 1..];
  }

  lemma ShapeIs(s: Book, script: Script, i: nat, l: Book, front: seq<Alarm>)
    requires i <= |s.list| && l.now == s.now && l.clock == s.clock && l.calls == s.calls + DueOf(s, s.list[..i])
    requires l.list == front + Minus(s.list[..i], Gone(s, script, i)) + s.list[i..]
    requires forall b :: b in front ==> Started(s, script, b, JobOf(l, b)) && (b !in s.list || b in Gone(s, script, i))
    requires forall b :: b in s.list && b !in Gone(s, script, i) ==>
               JobOf(l, b) == if b in s.list[i..] then JobOf(s, b) else NextJob(s, script, b)
    ensures Shape(s, script, i, l, front)
  {
  }

  lemma ShapeTurn(s: Book, script: Script, i: nat, k: Book, front: seq<Alarm>) returns (front1: seq<Alarm>)
    requires i < |s.list| && Once(s.list) && Shape(s, script, i, k, front) && JobOf(s, s.list[i]).deadline == s.now
    ensures Shape(s, script, i + 1, Turned(k, s.list[i], script(s.list[i])), front1)
  {
    hide *;
    var a, done, later := s.list[i], Minus(s.list[..i], Gone(s, script, i)), s.list[i + 1..];
    var l := Turned(k, a, script(a));
    ShapeList(s, script, i, k, front);
    DueLast(s, s.list, i);
    front1 := TurnList(k, a, script(a), front, done, later);
    Regroup(s, script, i, front1, Ends(script(a)));
    TurnOwn(k, a, script(a));
    forall b | b in front1
      ensures Started(s, script, b, JobOf(l, b)) && (b !in s.list || b in Gone(s, script, i + 1))
    {
      FrontStep(s, script, i, k, front, b);
    }
    forall b | b in s.list && b !in Gone(s, script, i + 1)
      ensures JobOf(l, b) == if b in s.list[i + 1..] then JobOf(s, b) else NextJob(s, script, b)
    {
      JobsStep(s, script, i, k, front, b);
    }
    ShapeIs(s, script, i + 1, l, front1);
  }

  lemma ShapeIdle(s: Book, script: Script, i: nat, k: Book, front: seq<Alarm>)
    requires i < |s.list| && Once(s.list) && Shape(s, script, i, k, front) && JobOf(s, s.list[i]).deadline != s.now
    ensures Shape(s, script, i + 1, k, front)
  {
    ShapeList(s, script, i, k, front);
    GoneStep(s, script, i);
    DueLast(s, s.list, i);
    hide Minus, DueOf, Ends, Once, Started, Gone;
    assert Gone(s, script, i) + {} == Gone(s, script, i);
    Regroup(s, script, i, front, false);
  }

  lemma ShapeStep(s: Book, script: Script, i: nat, k: Book, front: seq<Alarm>) returns (front1: seq<Alarm>)
    requires i < |s.list| && Once(s.list) && k == Walked(s, script, i) && Shape(s, script, i, k, front)
    ensures Shape(s, script, i + 1, Walked(s, script, i + 1), front1)
  {
    WalkedStep(s, script, i);
    hide *;
    if JobOf(s, s.list[i]).deadline == s.now {
      front1 := ShapeTurn(s, script, i, k, front);
    } else {
      front1 := front;
      ShapeIdle(s, script, i, k, front);
    }
  }

  lemma {:induction false} WalkShape(s: Book, script: Script, i: nat) returns (front: seq<Alarm>)
    requires i <= |s.list| && Once(s.list)
    ensures Shape(s, script, i, Walked(s, script, i), front)
  {
    hide *;
    if i == 0 {
      ShapeStarts(s, script);
      front := [];
    } else {
      front := WalkShape(s, script, i - 1);
      front := ShapeStep(s, script, i - 1, Walked(s, script, i - 1), front);
    }
  }

  /** The alarms whose callback at the next tick ends them. */
  ghost function EndedBy(k: Book, script: Script): set<Alarm> {
    set a | a in k.list && JobOf(k, a).deadline == k.now + 1 && Ends(script(a))
  }

  // What a tick does to the list and to the alarms that ran before it: exactly those due
  // are called back, once each, in list order; those whose callback answers zero or stops
  // them leave, the others are due one answer later, all under what was started meanwhile.
  lemma TickLaw(k: Book, script: Script) returns (front: seq<Alarm>)
    requires Once(k.list)
    ensures Ticked(k, script).now == k.now + 1 && Ticked(k, script).clock == k.clock
    ensures Ticked(k, script).calls == k.calls + DueOf(Next(k), k.list)
    ensures Ticked(k, script).list == front + Minus(k.list, EndedBy(k, script))
    ensures forall b :: b in front ==>
              Started(Next(k), script, b, JobOf(Ticked(k, script), b)) && (b !in k.list || b in EndedBy(k, script))
    ensures forall b :: b in k.list && b !in EndedBy(k, script) ==>
              JobOf(Ticked(k, script), b) == NextJob(Next(k), script, b)
  {
    var s := Next(k);
    var n := |s.list|;
    assert s.list[..n] == k.list && s.list[n..] == [];
    assert Gone(s, script, n) == EndedBy(k, script);
    front := WalkShape(s, script, n);
    hide Turns, Minus, DueOf, Ends, Started, EndedBy, Gone, NextJob, JobOf;
    var kept := Minus(k.list, EndedBy(k, script));
    assert front + kept + [] == front + kept;
  }

  /** From the start of a tick to `l`, alarm `b` kept running with its job, or kept idle, or
      was started by a callback. */
  ghost predicate KeptBy(s: Book, script: Script, l: Book, b: Alarm) {
    && l.now == s.now && l.clock == s.clock
    && (b in s.list ==> b in l.list && JobOf(l, b) == JobOf(s, b))
    && (b !in s.list ==> if b in l.list then Started(s, script, b, JobOf(l, b)) else JobOf(l, b) == JobOf(s, b))
  }

  lemma {:induction false} TurnsKeep(s: Book, due: seq<Alarm>, script: Script, b: Alarm)
    requires b !in due && forall a :: a in due ==> a in s.list && JobOf(s, a).deadline == s.now
    ensures KeptBy(s, script, Turns(s, due, script), b)
  {
    if due != [] {
      var before, a := due[..|due| - 1], due[|due| - 1];
      assert a in due && forall c :: c in before ==> c in due;
      TurnsKeep(s, before, script, b);
      TurnKeeps(Turns(s, before, script), a, script(a), b);
      hide Turned, StartedBy;
    }
  }

  lemma {:induction false} DueAre(k: Book, list: seq<Alarm>)
    ensures forall a :: a in DueOf(k, list) ==> a in list && JobOf(k, a).deadline == k.now
  {
    if list != [] {
      DueAre(k, list[..|list| - 1]);
      assert list[|list| - 1] in list;
    }
  }

  // An alarm that did not run is started by a callback of this tick, which gives its
  // deadline, or stays idle as it was; one that runs and is not due keeps running as it was.
  lemma TickKeeps(k: Book, script: Script, b: Alarm)
    requires b in k.list ==> JobOf(k, b).deadline != k.now + 1
    ensures KeptBy(Next(k), script, Ticked(k, script), b)
  {
    DueAre(Next(k), k.list);
    assert JobOf(Next(k), b) == JobOf(k, b);
    hide KeptBy, Turns, DueOf;
    TurnsKeep(Next(k), DueOf(Next(k), k.list), script, b);
  }

  lemma {:induction false} DeedsStart(k: Book, a: Alarm, deeds: seq<Deed>, d: Deed)
    requires k.clock && d in deeds && d.Starts? && d.b != a
    ensures d.b in DidAll(k, a, deeds).list
  {
    var before, last := deeds[..|deeds| - 1], deeds[|deeds| - 1];
    assert deeds == before + [last];
    DeedsKeep(k, a, before, d.b);
    MinusMembers(DidAll(k, a, before).list, {a});
    hide Minus;
    if d in before {
      DeedsStart(k, a, before, d);
    }
  }

  lemma TurnStarts(k: Book, a: Alarm, turn: Turn, d: Deed)
    requires k.clock && d in turn.deeds && d.Starts? && d.b != a
    ensures d.b in Turned(k, a, turn).list
  {
    DeedsStart(Called(k, a), a, turn.deeds, d);
    MinusMembers(DidAll(Called(k, a), a, turn.deeds).list, {a});
    hide DidAll, Minus;
  }

  lemma {:induction false} TurnsStart(s: Book, due: seq<Alarm>, script: Script, a: Alarm, d: Deed)
    requires s.clock && a in due && d in script(a).deeds && d.Starts? && d.b !in due
    requires forall c :: c in due ==> c in s.list && JobOf(s, c).deadline == s.now
    ensures d.b in Turns(s, due, script).list
  {
    var before, c := due[..|due| - 1], due[|due| - 1];
    assert due == before + [c];
    TurnsKeep(s, before, script, d.b);
    hide Turned, StartedBy, Started;
    if a == c {
      TurnStarts(Turns(s, before, script), c, script(c), d);
    } else {
      TurnsStart(s, before, script, a, d);
      TurnKeeps(Turns(s, before, script), c, script(c), d.b);
    }
  }

  lemma {:induction false} DueHas(k: Book, list: seq<Alarm>, a: Alarm)
    requires a in list && JobOf(k, a).deadline == k.now
    ensures a in DueOf(k, list)
  {
    if a != list[|list| - 1] {
      DueHas(k, list[..|list| - 1], a);
    }
  }

  lemma {:induction false} DueOnce(k: Book, list: seq<Alarm>, a: Alarm)
    ensures multiset(DueOf(k, list))[a] == if JobOf(k, a).deadline == k.now then multiset(list)[a] else 0
  {
    if list != [] {
      DueOnce(k, list[..|list| - 1], a);
      assert list == list[..|list| - 1] + [list[|list| - 1]];
    }
  }

  lemma {:induction false} OnceCounted(list: seq<Alarm>, a: Alarm)
    requires Once(list)
    ensures multiset(list)[a] == if a in list then 1 else 0
  {
    if list != [] {
      OnceCounted(list[..|list| - 1], a);
      assert list == list[..|list| - 1] + [list[|list| - 1]];
    }
  }

  // The callbacks a tick makes: one for each alarm in the list that is due, none for others.
  lemma {:induction false} TickCallsOnce(k: Book, script: Script, a: Alarm)
    requires Once(k.list)
    ensures k.calls <= Ticked(k, script).calls
    ensures multiset(Ticked(k, script).calls[|k.calls|..])[a]
            == if a in k.list && JobOf(k, a).deadline == k.now + 1 then 1 else 0
  {
    var front := TickLaw(k, script);
    var due := DueOf(Next(k), k.list);
    DueOnce(Next(k), k.list, a);
    OnceCounted(k.list, a);
    hide Ticked, DueOf, Once, Started, NextJob, EndedBy, Minus;
    assert (k.calls + due)[|k.calls|..] == due;
    assert JobOf(Next(k), a) == JobOf(k, a);
  }

  lemma {:induction false} DueInOrder(k: Book, list: seq<Alarm>, i: nat, j: nat) returns (p: nat, q: nat)
    requires i < j < |list| && JobOf(k, list[i]).deadline == JobOf(k, list[j]).deadline == k.now
    ensures p < q < |DueOf(k, list)| && DueOf(k, list)[p] == list[i] && DueOf(k, list)[q] == list[j]
  {
    var before := list[..|list| - 1];
    if j < |list| - 1 {
      p, q := DueInOrder(k, before, i, j);
    } else {
      DueHas(k, before, before[i]);
      p :| 0 <= p < |DueOf(k, before)| && DueOf(k, before)[p] == list[i];
      q := |DueOf(k, before)|;
    }
  }

  // And of two that are due the one further up the list is called first.
  lemma {:induction false} TickCallsInOrder(k: Book, script: Script, i: nat, j: nat) returns (p: nat, q: nat)
    requires Once(k.list) && i < j < |k.list|
    requires JobOf(k, k.list[i]).deadline == JobOf(k, k.list[j]).deadline == k.now + 1
    ensures |k.calls| <= p < q < |Ticked(k, script).calls|
    ensures Ticked(k, script).calls[p] == k.list[i] && Ticked(k, script).calls[q] == k.list[j]
  {
    var front := TickLaw(k, script);
    hide Ticked, DueOf, Once, Started, NextJob, EndedBy, Minus;
    assert forall a :: JobOf(Next(k), a) == JobOf(k, a);
    p, q := DueInOrder(Next(k), k.list, i, j);
    p, q := p + |k.calls|, q + |k.calls|;
  }

  // An idle alarm that some callback of the tick starts does run afterwards; TickKeeps and
  // StartedInTick give its deadline.
  lemma TickStarts(k: Book, script: Script, a: Alarm, d: Deed)
    requires k.clock && a in k.list && JobOf(k, a).deadline == k.now + 1
    requires d in script(a).deeds && d.Starts? && d.b !in k.list
    ensures d.b in Ticked(k, script).list
  {
    DueAre(Next(k), k.list);
    assert JobOf(Next(k), a) == JobOf(k, a);
    DueHas(Next(k), k.list, a);
    hide Turns, DueOf;
    TurnsStart(Next(k), DueOf(Next(k), k.list), script, a, d);
  }

  lemma {:induction false} DeedsDoNotStart(k: Book, c: Alarm, deeds: seq<Deed>, a: Alarm)
    requires a != c && a !in k.list && forall d :: d in deeds && d.Starts? ==> d.b != a
    ensures a !in DidAll(k, c, deeds).list && JobOf(DidAll(k, c, deeds), a) == JobOf(k, a)
  {
    if deeds != [] {
      var before := deeds[..|deeds| - 1];
      assert deeds[|deeds| - 1] in deeds && forall d :: d in before ==> d in deeds;
      DeedsDoNotStart(k, c, before, a);
      MinusMembers(DidAll(k, c, before).list, {c});
      hide Minus;
    }
  }

  lemma NotStarted(k: Book, c: Alarm, turn: Turn, a: Alarm)
    requires a != c && a !in k.list && forall d :: d in turn.deeds && d.Starts? ==> d.b != a
    ensures a !in Turned(k, c, turn).list && JobOf(Turned(k, c, turn), a) == JobOf(k, a)
  {
    DeedsDoNotStart(Called(k, c), c, turn.deeds, a);
    MinusMembers(DidAll(Called(k, c), c, turn.deeds).list, {c});
    hide DidAll, Minus;
  }

  /** One alarm through a tick that leaves it to its own answers. */
  ghost predicate Tracked(s: Book, script: Script, a: Alarm, visited: bool, k: Book) {
    var j, i := JobOf(k, a), JobOf(s, a);
    if a !in s.list then a !in k.list && j == i
    else if !(visited && i.deadline == s.now) then a in k.list && j == i
    else if script(a).answer == 0 then a !in k.list && j.fired == i.fired + [s.now]
    else a in k.list && j == Job(s.now + script(a).answer, i.fired + [s.now])
  }

  lemma TrackOther(s: Book, script: Script, a: Alarm, visited: bool, k: Book, c: Alarm)
    requires Tracked(s, script, a, visited, k) && c != a
    requires forall d :: d in script(c).deeds && d.Starts? ==> d.b != a
    ensures Tracked(s, script, a, visited, Turned(k, c, script(c)))
  {
    hide Turned, StartedBy;
    TurnKeeps(k, c, script(c), a);
    if a !in k.list {
      NotStarted(k, c, script(c), a);
    }
  }

  lemma TrackOwn(s: Book, script: Script, a: Alarm, k: Book)
    requires a in s.list && Tracked(s, script, a, false, k) && Stops !in script(a).deeds && k.now == s.now
    requires JobOf(s, a).deadline == s.now
    ensures Tracked(s, script, a, true, Turned(k, a, script(a)))
  {
    hide Turned, StartedBy;
    TurnOwn(k, a, script(a));
  }

  lemma TrackNotDue(s: Book, script: Script, a: Alarm, k: Book, v: bool, w: bool)
    requires Tracked(s, script, a, v, k) && (v != w ==> JobOf(s, a).deadline != s.now)
    ensures Tracked(s, script, a, w, k)
  {
  }

  lemma TrackStep(s: Book, script: Script, a: Alarm, k: Book, c: Alarm, v: bool)
    requires Tracked(s, script, a, v, k) && k.now == s.now && (a == c ==> !v && a in s.list)
    requires Stops !in script(a).deeds && forall d :: d in script(c).deeds && d.Starts? ==> d.b != a
    ensures Tracked(s, script, a, v || a == c, if JobOf(s, c).deadline == s.now then Turned(k, c, script(c)) else k)
  {
    hide *;
    if JobOf(s, c).deadline != s.now {
      TrackNotDue(s, script, a, k, v, v || a == c);
    } else if c == a {
      TrackOwn(s, script, a, k);
    } else {
      TrackOther(s, script, a, v, k, c);
    }
  }

  lemma {:induction false} TrackWalk(s: Book, script: Script, a: Alarm, i: nat)
    requires i <= |s.list| && Once(s.list) && Stops !in script(a).deeds
    requires forall b, d :: b in s.list && d in script(b).deeds && d.Starts? ==> d.b != a
    ensures Tracked(s, script, a, a in s.list[..i], Walked(s, script, i))
  {
    if i > 0 {
      var c := s.list[i - 1];
      GoneStep(s, script, i - 1);
      hide *;
      TrackWalk(s, script, a, i - 1);
      WalkedStep(s, script, i - 1);
      WalkedNow(s, script, i - 1);
      TrackStep(s, script, a, Walked(s, script, i - 1), c, a in s.list[..i - 1]);
    } else {
      WalkedNone(s, script);
      assert s.list[..0] == [];
    }
  }

  lemma WalkedNow(s: Book, script: Script, i: nat)
    requires i <= |s.list| && Once(s.list)
    ensures Walked(s, script, i).now == s.now
  {
    var front := WalkShape(s, script, i);
    hide Walked;
  }

  lemma WalkedNone(s: Book, script: Script)
    ensures Walked(s, script, 0) == s
  {
    ShapeStarts(s, script);
  }

  // A tick that leaves `a` to its own answers: it fires if it is due, and only then.
  lemma QuietTick(k: Book, script: Script, a: Alarm)
    requires Once(k.list) && Quiet(k, Tick(script), a)
    ensures Tracked(Next(k), script, a, true, Ticked(k, script))
  {
    var s := Next(k);
    TrackWalk(s, script, a, |s.list|);
    assert s.list[..|s.list|] == k.list;
    hide Turns;
  }

  // ------------------------------------------------------------------ any number of ticks

  /** What happens to the scheduler: ticks, and the program starting and stopping alarms. */
  datatype Event = Tick(script: Script) | Start(b: Alarm, interval: U32) | Stop(c: Alarm)

  ghost function Happened(k: Book, e: Event): Book {
    match e
    case Tick(script) => Ticked(k, script)
    case Start(b, interval) => Begun(k, b, interval)
    case Stop(c) => Ended(k, c)
  }

  ghost function Run(k: Book, events: seq<Event>): Book
    decreases |events|
  {
    if events == [] then k else Run(Happened(k, events[0]), events[1..])
  }

  /** A running alarm is not started. */
  ghost predicate Legal(k: Book, events: seq<Event>)
    decreases |events|
  {
    events == [] || ((events[0].Start? ==> events[0].b !in k.list) && Legal(Happened(k, events[0]), events[1..]))
  }

  /** The event leaves alarm `a` to its own answers: nobody stops it or, once it has
      ended, starts it again. */
  ghost predicate Quiet(k: Book, e: Event, a: Alarm) {
    match e
    case Tick(script) =>
      && Stops !in script(a).deeds
      && forall b, d :: b in k.list && d in script(b).deeds && d.Starts? ==> d.b != a
    case Start(b, _) => b != a
    case Stop(c) => c != a
  }

  ghost predicate AllQuiet(k: Book, events: seq<Event>, a: Alarm)
    decreases |events|
  {
    events == [] || (Quiet(k, events[0], a) && AllQuiet(Happened(k, events[0]), events[1..], a))
  }

  /** What `a` answers, call by call. */
  ghost function Answers(k: Book, events: seq<Event>, a: Alarm): seq<U32>
    decreases |events|
  {
    if events == [] then [] else
      var later := Answers(Happened(k, events[0]), events[1..], a);
      if events[0].Tick? && a in k.list && JobOf(k, a).deadline == k.now + 1 then [events[0].script(a).answer] + later
      else later
  }

  function TickCount(events: seq<Event>): nat {
    if events == [] then 0 else TickCount(events[1..]) + if events[0].Tick? then 1 else 0
  }

  /** Each running alarm occurs once and is due in the future. */
  ghost predicate Good(k: Book) {
    Once(k.list) && forall a :: a in k.list ==> JobOf(k, a).deadline > k.now
  }

  lemma {:induction false} DeedsOnce(k: Book, a: Alarm, deeds: seq<Deed>)
    requires Once(k.list)
    ensures Once(DidAll(k, a, deeds).list)
  {
    if deeds != [] {
      var l := DidAll(k, a, deeds[..|deeds| - 1]);
      DeedsOnce(k, a, deeds[..|deeds| - 1]);
      MinusOnce(l.list, {a});
      hide Minus;
    }
  }

  lemma {:induction false} TurnsOnce(k: Book, due: seq<Alarm>, script: Script)
    requires Once(k.list)
    ensures Once(Turns(k, due, script).list)
  {
    if due != [] {
      var l, a := Turns(k, due[..|due| - 1], script), due[|due| - 1];
      TurnsOnce(k, due[..|due| - 1], script);
      DeedsOnce(Called(l, a), a, script(a).deeds);
      MinusOnce(DidAll(Called(l, a), a, script(a).deeds).list, {a});
      hide Minus, DidAll, Once;
    }
  }

  lemma MinusHas(s: seq<Alarm>, gone: set<Alarm>, a: Alarm)
    ensures a in Minus(s, gone) <==> a in s && a !in gone
  {
    MinusMembers(s, gone);
  }

  lemma TickDue(k: Book, script: Script, front: seq<Alarm>, a: Alarm)
    requires Good(k) && Ticked(k, script).list == front + Minus(k.list, EndedBy(k, script))
    requires a in Ticked(k, script).list
    requires a in front ==> Started(Next(k), script, a, JobOf(Ticked(k, script), a))
    requires a in k.list && a !in EndedBy(k, script) ==> JobOf(Ticked(k, script), a) == NextJob(Next(k), script, a)
    requires Ticked(k, script).now == k.now + 1
    ensures JobOf(Ticked(k, script), a).deadline > k.now + 1
  {
    MinusHas(k.list, EndedBy(k, script), a);
    hide Ticked, Minus, Once, Started;
    if a in front {
      StartedLater(Next(k), script, a, JobOf(Ticked(k, script), a));
    }
  }

  lemma TickGood(k: Book, script: Script)
    requires Good(k)
    ensures Good(Ticked(k, script)) && Ticked(k, script).now == k.now + 1
  {
    TurnsOnce(Next(k), DueOf(Next(k), k.list), script);
    assert Once(Ticked(k, script).list);
    var front := TickLaw(k, script);
    hide Ticked, Minus, Once, DueOf, EndedBy, Started, NextJob, JobOf;
    forall a | a in Ticked(k, script).list
      ensures JobOf(Ticked(k, script), a).deadline > k.now + 1
    {
      TickDue(k, script, front, a);
    }
  }

  lemma EventGood(k: Book, e: Event)
    requires Good(k) && (e.Start? ==> e.b !in k.list)
    ensures Good(Happened(k, e)) && Happened(k, e).now == k.now + if e.Tick? then 1 else 0
  {
    match e
    case Tick(script) => TickGood(k, script);
    case Start(b, interval) =>
    case Stop(c) =>
      MinusOnce(k.list, {c});
      forall a | a in Ended(k, c).list
        ensures a in k.list
      {
        MinusHas(k.list, {c}, a);
      }
  }

  /** `fired` is what `a` has fired so far and then, if it runs, its deadlines up to `limit`. */
  ghost predicate Fires(k: Book, a: Alarm, answers: seq<U32>, limit: nat, fired: seq<nat>) {
    if a in k.list then fired == JobOf(k, a).fired + DueBy(JobOf(k, a).deadline, answers, limit)
    else fired == JobOf(k, a).fired
  }

  // The firings of a due alarm, from those after its answer.
  lemma FiresNow(i: Job, j: Job, still: bool, t: nat, answer: U32, later: seq<U32>, limit: nat, fired: seq<nat>)
    requires i.deadline == t <= limit
    requires if answer == 0 then !still && j.fired == i.fired + [t] else still && j == Job(t + answer, i.fired + [t])
    requires fired == if still then j.fired + DueBy(j.deadline, later, limit) else j.fired
    ensures fired == i.fired + DueBy(i.deadline, [answer] + later, limit)
  {
    hide DueBy;
    DueNow(t, answer, later, limit);
    FiredThen(i.fired, t, DueBy(t + answer, later, limit));
  }

  // One tick earlier.
  lemma {:induction false} FiresTick(k: Book, script: Script, a: Alarm, l: Book,
                                     later: seq<U32>, limit: nat, fired: seq<nat>)
    requires l.now == k.now + 1 <= limit && Tracked(Next(k), script, a, true, l) && Fires(l, a, later, limit, fired)
    requires a in k.list ==> JobOf(k, a).deadline > k.now
    ensures var called := a in k.list && JobOf(k, a).deadline == k.now + 1;
      Fires(k, a, if called then [script(a).answer] + later else later, limit, fired)
  {
    assert JobOf(Next(k), a) == JobOf(k, a);
    hide JobOf, DueBy;
    if a in k.list && JobOf(k, a).deadline == k.now + 1 {
      FiresNow(JobOf(k, a), JobOf(l, a), a in l.list, k.now + 1, script(a).answer, later, limit, fired);
    }
  }

  lemma FiredThen(before: seq<nat>, t: nat, rest: seq<nat>)
    ensures before + [t] + rest == before + ([t] + rest)
  {
  }

  lemma {:induction false} DueNow(t: nat, answer: U32, later: seq<U32>, limit: nat)
    requires t <= limit
    ensures DueBy(t, [answer] + later, limit) == if answer == 0 then [t] else [t] + DueBy(t + answer, later, limit)
  {
    assert ([answer] + later)[1..] == later;
  }

  lemma {:induction false} FiresOther(k: Book, e: Event, a: Alarm, answers: seq<U32>, limit: nat, fired: seq<nat>)
    requires !e.Tick? && Quiet(k, e, a) && Fires(Happened(k, e), a, answers, limit, fired)
    ensures Fires(k, a, answers, limit, fired)
  {
    if e.Stop? {
      MinusHas(k.list, {e.c}, a);
    }
  }

  lemma {:induction false} FiresSteps(k: Book, events: seq<Event>, a: Alarm)
    requires Good(k) && Legal(k, events) && AllQuiet(k, events, a)
    ensures Fires(k, a, Answers(k, events, a), k.now + TickCount(events), JobOf(Run(k, events), a).fired)
    decreases |events|, 1
  {
    if events == [] {
      FutureJob(k, a);
    } else {
      FiresFirst(k, events, a);
    }
  }

  lemma {:induction false} FiresFirst(k: Book, events: seq<Event>, a: Alarm)
    requires Good(k) && Legal(k, events) && AllQuiet(k, events, a) && events != []
    ensures Fires(k, a, Answers(k, events, a), k.now + TickCount(events), JobOf(Run(k, events), a).fired)
    decreases |events|, 0
  {
    hide *;
    var e, rest := events[0], events[1..];
    var l := Happened(k, e);
    Unroll(k, events, a);
    EventGood(k, e);
    FiresSteps(l, rest, a);
    var later, limit, fired := Answers(l, rest, a), l.now + TickCount(rest), JobOf(Run(l, rest), a).fired;
    if e.Tick? {
      GoodOnce(k);
      QuietTick(k, e.script, a);
      FutureJob(k, a);
      FiresTick(k, e.script, a, l, later, limit, fired);
    } else {
      FiresOther(k, e, a, later, limit, fired);
    }
  }

  // Over any number of ticks, whatever all callbacks do and whatever is started and
  // stopped in between, an alarm left to its own answers fires exactly at its unbounded
  // deadlines: the first one, then each answer after the last, until it answers zero.
  lemma {:induction false} FiresExactly(k: Book, events: seq<Event>, a: Alarm)
    requires Good(k) && a in k.list && Legal(k, events) && AllQuiet(k, events, a)
    ensures JobOf(Run(k, events), a).fired
            == JobOf(k, a).fired + DueBy(JobOf(k, a).deadline, Answers(k, events, a), k.now + TickCount(events))
  {
    hide Run, Legal, AllQuiet, Answers, DueBy, TickCount;
    FiresSteps(k, events, a);
  }

  lemma {:induction false} Unroll(k: Book, events: seq<Event>, a: Alarm)
    requires events != [] && Legal(k, events) && AllQuiet(k, events, a)
    ensures var e, rest := events[0], events[1..];
      var l := Happened(k, e);
      && (e.Start? ==> e.b !in k.list) && Legal(l, rest) && Quiet(k, e, a) && AllQuiet(l, rest, a)
      && Run(k, events) == Run(l, rest) && TickCount(events) == TickCount(rest) + (if e.Tick? then 1 else 0)
      && (var called := e.Tick? && a in k.list && JobOf(k, a).deadline == k.now + 1;
          Answers(k, events, a) == if called then [e.script(a).answer] + Answers(l, rest, a) else Answers(l, rest, a))
      && (e.Tick? ==> l == Ticked(k, e.script))
  {
  }

  lemma GoodOnce(k: Book)
    requires Good(k)
    ensures Once(k.list)
  {
  }

  lemma FutureJob(k: Book, a: Alarm)
    requires Good(k)
    ensures a in k.list ==> JobOf(k, a).deadline > k.now
  {
  }

  lemma NewFires(k: Book, events: seq<Event>, a: Alarm)
    requires Good(k) && Legal(k, events) && AllQuiet(k, events, a) && a in k.list && JobOf(k, a).fired == []
    ensures JobOf(Run(k, events), a).fired
            == DueBy(JobOf(k, a).deadline, Answers(k, events, a), k.now + TickCount(events))
  {
    hide *;
    FiresExactly(k, events, a);
    var due := DueBy(JobOf(k, a).deadline, Answers(k, events, a), k.now + TickCount(events));
    assert [] + due == due;
  }

  // From the call that starts it: first after interval + 1 ticks.
  lemma {:induction false} StartedFiresExactly(k: Book, b: Alarm, interval: U32, events: seq<Event>)
    requires Good(k) && k.clock && b !in k.list
    requires Legal(Begun(k, b, interval), events) && AllQuiet(Begun(k, b, interval), events, b)
    ensures JobOf(Run(Begun(k, b, interval), events), b).fired
            == DueBy(k.now + interval + 1, Answers(Begun(k, b, interval), events, b), k.now + TickCount(events))
  {
    hide Run, Legal, AllQuiet, Answers, DueBy, TickCount;
    EventGood(k, Start(b, interval));
    NewFires(Begun(k, b, interval), events, b);
  }

  // Which callback started an alarm that runs after a tick without having kept running,
  // and the deadline that gives it.
  lemma StartedInTick(k: Book, script: Script, b: Alarm) returns (a: Alarm, d: Deed)
    requires Once(k.list) && b in Ticked(k, script).list && (b !in k.list || b in EndedBy(k, script))
    ensures a in k.list && JobOf(k, a).deadline == k.now + 1 && d in script(a).deeds && d.Starts? && d.b == b
    ensures JobOf(Ticked(k, script), b)
            == Job(k.now + 1 + d.interval + 1 + (if a == b then script(a).answer else 0), [])
  {
    var front := TickLaw(k, script);
    MinusHas(k.list, EndedBy(k, script), b);
    hide Ticked, Minus, EndedBy, Once, DueOf, StartedBy;
    var l := Ticked(k, script);
    assert b in front;
    a :| a in Next(k).list && JobOf(Next(k), a).deadline == Next(k).now
      && StartedBy(Next(k).now, script(a).deeds, b, if a == b then script(a).answer else 0, JobOf(l, b));
    d := StartingDeed(k.now + 1, script(a).deeds, b, if a == b then script(a).answer else 0, JobOf(l, b));
  }

  lemma StartingDeed(now: nat, deeds: seq<Deed>, b: Alarm, more: nat, job: Job) returns (d: Deed)
    requires StartedBy(now, deeds, b, more, job)
    ensures d in deeds && d.Starts? && d.b == b && job == Job(now + d.interval + 1 + more, [])
  {
    d :| d in deeds && d.Starts? && d.b == b && job == Job(now + d.interval + 1 + more, []);
  }

  // From a start inside a callback: first after interval + 1 ticks, and the answer more if
  // the callback was the alarm's own.
  lemma {:induction false} CallbackStartFiresExactly(k: Book, script: Script, b: Alarm, events: seq<Event>)
    returns (a: Alarm, d: Deed)
    requires Good(k) && b in Ticked(k, script).list && (b !in k.list || b in EndedBy(k, script))
    requires Legal(Ticked(k, script), events) && AllQuiet(Ticked(k, script), events, b)
    ensures a in k.list && JobOf(k, a).deadline == k.now + 1 && d in script(a).deeds && d.Starts? && d.b == b
    ensures var l, start := Ticked(k, script), k.now + 1;
      JobOf(Run(l, events), b).fired == DueBy(start + d.interval + 1 + (if a == b then script(a).answer else 0),
                                              Answers(l, events, b), start + TickCount(events))
  {
    hide *;
    GoodOnce(k);
    TickGood(k, script);
    a, d := StartedInTick(k, script, b);
    NewFires(Ticked(k, script), events, b);
  }
}
