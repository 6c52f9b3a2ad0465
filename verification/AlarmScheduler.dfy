/** The tick counter and the list of running alarms: starting and stopping alarms, and
    the walk over the list at every tick while callbacks start and stop alarms.  Each
    method is the operation of AlarmBook of the same effect. */
module AlarmScheduler {
  import opened AlarmBook
  import opened AlarmList
  import opened AlarmTime
  import opened Words

  datatype Status = Started | NoAlarm | NoClock

  class Scheduler {
    const head: Alarm
    var nticks: U32
    var tickRate: U32
    /** Every alarm structure of the program, running or not. */
    var known: set<Alarm>
    ghost var book: Book

    /** The list is well formed and holds exactly the running alarms. */
    ghost predicate Links()
      reads `known, `book, head`next, head`previous, known`next, known`previous
    {
      && head !in known
      && (forall a :: a in book.list ==> a in known)
      && (forall a :: a in known && a !in book.list ==> Unlinked(a))
      && Linked(head, book.list)
    }

    /** The alarms that are not running. */
    ghost function Outside(): set<Alarm>
      reads `known, `book
    {
      set b | b in known && b !in book.list
    }

    ghost predicate Structure()
      reads `nticks, `tickRate, `known, `book, head`next, head`previous, known`next, known`previous
    {
      nticks == Ticks(book.now) && book.clock == (tickRate != 0) && Links()
    }

    /** The 32-bit fields stand for the true deadline, when `t` ticks have been processed. */
    ghost predicate Sync(a: Alarm, t: nat)
      reads `book, a`due
    {
      InSync(a.due, JobOf(book, a).deadline, t)
    }

    ghost predicate Valid()
      reads `nticks, `tickRate, `known, `book, head`next, head`previous, known`next, known`previous, known`due
    {
      Structure() && forall a :: a in book.list ==> a in known && Sync(a, book.now)
    }

    /** Callbacks start only alarms of the program, at intervals that can be represented. */
    ghost predicate Sound(a: Alarm, turn: Turn)
      reads `known
    {
      Allowed(a, turn) && forall d :: d in turn.deeds && d.Starts? ==> d.b in known
    }

    constructor (structures: set<Alarm>, tickRate: U32)
      requires forall a :: a in structures ==> a.next == null && a.previous == null
      ensures Valid() && book == Book(tickRate != 0, 0, [], map[], [])
      ensures known == structures && this.tickRate == tickRate
      ensures fresh(head)
    {
      head := new Alarm.Head();
      nticks, this.tickRate, known := 0, tickRate, structures;
      book := Book(tickRate != 0, 0, [], map[], []);
    }

    method LinkIn(a: Alarm, ghost job: Job)
      requires Links() && a in known && a !in book.list
      modifies `book, head`next, head`previous, a`next, known`previous
      ensures Links() && a.next != null
      ensures book == old(book).(list := [a] + old(book).list, jobs := old(book).jobs[a := job])
    {
      AtMember(head, book.list, 1);
      ghost var list := book.list;
      hide Linked;
      Insert(head, a, list);
      book := book.(list := [a] + list, jobs := book.jobs[a := job]);
      FirstIsLinked(a);
    }

    lemma FirstIsLinked(a: Alarm)
      requires Linked(head, book.list) && book.list != [] && a == book.list[0]
      ensures a.next != null
    {
      assert a == At(head, book.list, 1) && a.next == At(head, book.list, 2);
    }

    /** The critical section of alt_alarm_start. */
    method Link(a: Alarm, interval: U32)
      requires Structure() && tickRate != 0 && a in known && a !in book.list
      modifies `book, head`next, head`previous, a`next, known`previous, a`due
      ensures Structure() && book == Begun(old(book), a, interval) && a.next != null
      ensures Sync(a, book.now) <==> interval != WRAP - 1
    {
      StartInSync(interval, book.now);
      hide Links, InSync, Ticks;
      var time := (interval + nticks + 1) % WRAP;
      a.due := Due(time, time < nticks);
      LinkIn(a, Job(book.now + interval + 1, []));
    }

    /** alt_alarm_start.  An alarm that is running already must not be started again.  The
        fields stand for the deadline except for the largest interval (see
        AlarmTime.FirstFiring). */
    method Start(a: Alarm?, interval: U32) returns (status: Status)
      requires Structure() && (a != null ==> a in known && a !in book.list)
      modifies `book, head`next, head`previous, (if a == null then {} else {a})`next, known`previous
      modifies (if a == null then {} else {a})`due
      ensures Structure()
      ensures status == if tickRate == 0 then NoClock else if a == null then NoAlarm else Started
      ensures book == if a == null then old(book) else Begun(old(book), a, interval)
      ensures status == Started ==> a.next != null && (Sync(a, book.now) <==> interval != WRAP - 1)
      ensures status != Started && a != null ==> a.next == old(a.next)
    {
      if tickRate == 0 {
        return NoClock;
      }
      if a == null {
        return NoAlarm;
      }
      Link(a, interval);
      return Started;
    }

    /** Its linking part: `rest` is what is to be left. */
    method Unlink(a: Alarm, ghost k: nat, ghost rest: seq<Alarm>)
      requires Links() && a in known && Removable(a, head, book.list, k)
      requires rest == if a in book.list then Without(book.list, k) else book.list
      requires forall b :: b in rest <==> b in book.list && b != a
      modifies `book, head`next, head`previous, known`next, known`previous
      ensures Links() && book == old(book).(list := rest) && a.next != null
    {
      AtMember(head, book.list, k);
      AtMember(head, book.list, k + 2);
      hide Linked, Distinct;
      Remove(a, head, book.list, k);
      book := book.(list := rest);
      forall b | b in known && b !in book.list
        ensures Unlinked(b)
      {
        assert b == a || old(Unlinked(b));
      }
    }

    /** alt_alarm_stop, for an alarm that has been started at some time. */
    method Stop(a: Alarm)
      requires Structure() && a in known && a.next != null
      modifies `book, head`next, head`previous, known`next, known`previous
      ensures Structure() && book == Ended(old(book), a) && a.next != null
    {
      ghost var k := Position(a);
      ghost var rest := Minus(book.list, {a});
      hide Links, Minus, Ticks, Removable, Without;
      Unlink(a, k, rest);
    }

    /** Where the alarm is in the list, if it is, and what taking it out leaves. */
    lemma Position(a: Alarm) returns (k: nat)
      requires Structure() && a in known && a.next != null
      ensures Removable(a, head, book.list, k)
      ensures Minus(book.list, {a}) == if a in book.list then Without(book.list, k) else book.list
      ensures forall b :: b in Minus(book.list, {a}) <==> b in book.list && b != a
    {
      k := |book.list|;
      MinusMembers(book.list, {a});
      if a in book.list {
        k :| 0 <= k < |book.list| && book.list[k] == a;
        MinusAt(book.list, k, a);
      } else {
        MinusNone(book.list, {a});
      }
    }

    lemma IdleIsOutside(b: Alarm)
      requires Links() && b in known
      ensures b !in book.list <==> b.next == null || b.next == b
      ensures Linked(head, book.list)
    {
      if b in book.list {
        var k :| 0 <= k < |book.list| && book.list[k] == b;
        assert b == At(head, book.list, k + 1) && b.next == At(head, book.list, k + 2);
        if k + 2 <= |book.list| {
          DistinctPositions(head, book.list, k + 1, k + 2);
        }
      }
    }

    /** One deed of the callback of alarm `a`. */
    method Perform(a: Alarm, d: Deed)
      requires Structure() && a in known && a.next != null && (d.Starts? ==> d.b in known && d.interval != WRAP - 1)
      modifies `book, head`next, head`previous, known`next, known`previous, Outside()`due
      ensures Structure() && book == Did(old(book), a, d) && a.next != null
      ensures forall b :: b in book.list && b !in old(book.list) ==> b in known && Sync(b, book.now)
      ensures forall b :: b in book.list && b in old(book.list) && old(b in known && Sync(b, book.now)) ==>
                b in known && Sync(b, book.now)
    {
      match d
      case Starts(b, interval) =>
        IdleIsOutside(b);
        hide Links, Sync, Ticks, Minus;
        if b.next == null || b.next == b {
          var status := Start(b, interval);
        }
      case Stops =>
        MinusMembers(book.list, {a});
        hide Links, Sync, Ticks, Minus;
        Stop(a);
    }

    /** Part-way through the callback of `a` that began with `k`: what was started since is
        represented at the current tick. */
    ghost predicate NewSync(k: Book, a: Alarm, stopped: bool)
      reads `known, `book, known`due
    {
      forall b :: b in book.list && (b !in k.list || (b == a && stopped)) ==> b in known && Sync(b, book.now)
    }

    lemma DidWhere(k: Book, a: Alarm, d: Deed)
      ensures Did(k, a, d).now == k.now && (d.Stops? ==> a !in Did(k, a, d).list)
      ensures forall b :: b in k.list && (b != a || d.Starts?) ==> b in Did(k, a, d).list
    {
      MinusMembers(k.list, {a});
    }

    /** The first `i` deeds of a callback that began with `k` are done. */
    ghost predicate InCallback(k: Book, a: Alarm, turn: Turn, i: nat)
      reads `nticks, `tickRate, `known, `book, head`next, head`previous, known`next, known`previous, known`due
      reads a`next
    {
      && Structure() && a.next != null && a in known && a in k.list && Sound(a, turn) && i <= |turn.deeds|
      && book == DidAll(k, a, turn.deeds[..i]) && NewSync(k, a, Stops in turn.deeds[..i])
    }

    /** One deed more. */
    method PerformNext(a: Alarm, turn: Turn, i: nat, ghost k: Book)
      requires InCallback(k, a, turn, i) && i < |turn.deeds|
      modifies `book, head`next, head`previous, known`next, known`previous, Outside()`due
      ensures InCallback(k, a, turn, i + 1) && Outside() <= old(Outside()) + {a}
      ensures old(a in book.list) && turn.deeds[i] != Stops ==> a in book.list && a.due == old(a.due)
    {
      var d := turn.deeds[i];
      ghost var before, l := turn.deeds[..i], book;
      assert turn.deeds[..i + 1] == before + [d] && (before + [d])[..i] == before && d in turn.deeds;
      assert DidAll(k, a, before + [d]) == Did(l, a, d);
      DidWhere(l, a, d);
      hide Links, Structure, Ticks, Minus, Did, DidAll, Sync;
      Perform(a, d);
      forall b | b in book.list && (b !in k.list || (b == a && Stops in before + [d]))
        ensures b in known && Sync(b, book.now)
      {
        assert b in l.list ==> b !in k.list || (b == a && Stops in before);
      }
    }

    lemma CallbackStarts(k: Book, a: Alarm, turn: Turn)
      requires Structure() && a in known && a.next != null && a in book.list && Sound(a, turn) && k == book
      ensures InCallback(k, a, turn, 0)
    {
      assert turn.deeds[..0] == [];
    }

    lemma CallbackEnds(k: Book, a: Alarm, turn: Turn)
      requires InCallback(k, a, turn, |turn.deeds|)
      ensures Structure() && a.next != null && book == DidAll(k, a, turn.deeds) && NewSync(k, a, Stops in turn.deeds)
    {
      assert turn.deeds[..|turn.deeds|] == turn.deeds;
    }

    /** The callback of alarm `a`: it does what it does, then answers. */
    method Callback(a: Alarm, turn: Turn) returns (answer: U32)
      requires Structure() && a in known && a.next != null && a in book.list && Sound(a, turn)
      modifies `book, head`next, head`previous, known`next, known`previous, (Outside() + {a})`due
      ensures Structure() && a.next != null && answer == turn.answer && book == DidAll(old(book), a, turn.deeds)
      ensures NewSync(old(book), a, Stops in turn.deeds)
      ensures Stops !in turn.deeds ==> a.due == old(a.due)
    {
      hide *;
      ghost var k := book;
      CallbackStarts(k, a, turn);
      for i := 0 to |turn.deeds|
        invariant InCallback(k, a, turn, i) && Outside() <= old(Outside()) + {a}
        invariant Stops !in turn.deeds ==> a in book.list && a.due == old(a.due)
      {
        assert turn.deeds[i] in turn.deeds;
        PerformNext(a, turn, i, k);
      }
      CallbackEnds(k, a, turn);
      answer := turn.answer;
    }

    /** The callback of `a` is made. */
    ghost method Mark(a: Alarm)
      requires Structure()
      modifies `book
      ensures Structure() && book == Called(old(book), a)
    {
      hide Linked, Unlinked, Ticks;
      book := Called(book, a);
    }

    /** The time fields after a callback: the deadline plus the answer.  An alarm that
        stopped itself meanwhile is updated too, to no effect. */
    method Rearm(a: Alarm, answer: U32)
      requires Structure() && a in known && answer > 0
      requires a in book.list
               ==> Sync(a, book.now) || (a.due == Due(nticks, false) && JobOf(book, a).deadline == book.now)
      requires a in book.list ==> JobOf(book, a).deadline + answer < book.now + WRAP
      modifies a`due, `book
      ensures Structure() && book == Answered(old(book), a, answer)
      ensures a in book.list ==> Sync(a, book.now)
    {
      if a in book.list {
        RearmInSync(a.due, JobOf(book, a).deadline, answer, book.now);
      }
      assert nticks == Ticks(book.now);
      hide Structure, InSync;
      var time := (a.due.time + answer) % WRAP;
      a.due := Due(time, a.due.rollover);
      if time < nticks {
        a.due := a.due.(rollover := true);
      }
      Note(a, answer);
    }

    /** The next deadline of `a`. */
    ghost method Note(a: Alarm, answer: U32)
      requires Structure() && answer > 0
      modifies `book
      ensures Structure() && book == Answered(old(book), a, answer)
    {
      hide Linked, Unlinked, Ticks;
      book := Answered(book, a, answer);
    }

    /** The alarm that a callback began with `k` has answered zero. */
    method Drop(a: Alarm, ghost k: Book, ghost stopped: bool)
      requires Structure() && a in known && a.next != null && NewSync(k, a, stopped)
      modifies `book, head`next, head`previous, known`next, known`previous
      ensures Structure() && book == Ended(old(book), a) && NewSync(k, a, true)
    {
      ghost var l := book;
      hide Links, Structure, Minus, InSync;
      Stop(a);
      forall b | b in book.list && (b !in k.list || b == a)
        ensures b in known && Sync(b, book.now)
      {
        MinusHas(l.list, {a}, b);
      }
    }

    /** It has answered with an interval. */
    method Again(a: Alarm, answer: U32, ghost k: Book, ghost stopped: bool)
      requires Structure() && a in known && answer > 0 && NewSync(k, a, stopped)
      requires !stopped ==> a.due == Due(nticks, false) && JobOf(book, a).deadline == book.now
      requires a in book.list ==> JobOf(book, a).deadline + answer < book.now + WRAP
      modifies a`due, `book
      ensures Structure() && book == Answered(old(book), a, answer) && NewSync(k, a, true)
    {
      hide Links, Structure, InSync;
      Rearm(a, answer);
    }

    /** What is known of the alarm itself after the deeds of its callback. */
    lemma AfterDeeds(k: Book, a: Alarm, turn: Turn)
      requires a in k.list && Allowed(a, turn) && JobOf(k, a).deadline == k.now
      requires book == DidAll(Called(k, a), a, turn.deeds)
      ensures book.now == k.now && (Stops !in turn.deeds ==> JobOf(book, a).deadline == book.now)
      ensures a in book.list && turn.answer > 0 ==> JobOf(book, a).deadline + turn.answer < book.now + WRAP
    {
      DeedsOwn(Called(k, a), a, turn.deeds);
      if turn.answer > 0 {
        DeedsRoom(Called(k, a), a, turn.deeds, turn.answer);
      }
      hide DidAll;
    }

    /** alt_tick when an alarm has expired: call back, then drop it or set its next deadline. */
    method Fire(a: Alarm, turn: Turn)
      requires Structure() && a in known && a.next != null && a in book.list && Sound(a, turn)
      requires a.due == Due(nticks, false) && JobOf(book, a).deadline == book.now
      modifies `book, head`next, head`previous, known`next, known`previous, (Outside() + {a})`due
      ensures Structure() && book == Turned(old(book), a, turn) && NewSync(old(book), a, true)
    {
      ghost var k := book;
      assert Called(k, a).list == k.list;
      hide Structure, Links, NewSync, Sync, DidAll, Allowed, Answered;
      Mark(a);
      assert Outside() == old(Outside());
      var answer := Callback(a, turn);
      AfterDeeds(k, a, turn);
      ghost var stopped := Stops in turn.deeds;
      SameNew(Called(k, a), k, a, stopped);
      if answer == 0 {
        Drop(a, k, stopped);
      } else {
        Again(a, answer, k, stopped);
      }
      AnsweredIs(DidAll(Called(k, a), a, turn.deeds), a, answer);
    }

    lemma SameNew(k: Book, l: Book, a: Alarm, stopped: bool)
      requires NewSync(k, a, stopped) && k.list == l.list
      ensures NewSync(l, a, stopped)
    {
    }

    lemma AnsweredIs(k: Book, a: Alarm, answer: U32)
      ensures answer == 0 ==> Answered(k, a, answer) == Ended(k, a)
    {
    }

    /** The body of alt_tick's loop. */
    method Visit(a: Alarm, turn: Turn)
      requires Structure() && a in known && a.next != null && a in book.list && Sound(a, turn)
      requires book.now > 0 && Sync(a, book.now - 1)
      modifies `book, head`next, head`previous, known`next, known`previous, (Outside() + {a})`due
      ensures Structure() && NewSync(old(book), a, true)
      ensures book == if JobOf(old(book), a).deadline == old(book).now then Turned(old(book), a, turn) else old(book)
    {
      TickInSync(a.due, JobOf(book, a).deadline, book.now - 1);
      assert nticks == Ticks(book.now);
      hide Links, Turned, Ticks, InSync, Sound;
      if a.due.rollover && nticks == 0 {
        a.due := a.due.(rollover := false);
      }
      if a.due.time <= nticks && !a.due.rollover {
        Fire(a, turn);
      }
    }

    lemma Following(before: seq<Alarm>, a: Alarm, later: seq<Alarm>)
      requires Links() && book.list == before + [a] + later
      ensures a in known && a in book.list && a.next == if later != [] then later[0] else head
    {
      var p := |before|;
      assert book.list[p] == a == At(head, book.list, p + 1);
      assert At(head, book.list, p + 2) == if later != [] then later[0] else head;
    }

    /** Part-way through the tick that began as `s`, with `i` alarms visited: the alarms
        still to be visited are represented at the tick before. */
    ghost predicate InWalk(s: Book, script: Script, i: nat)
      reads `nticks, `tickRate, `known, `book, head`next, head`previous, known`next, known`previous, known`due
    {
      && i <= |s.list| && Structure() && s.now > 0 && Once(s.list) && head !in s.list
      && book == Walked(s, script, i) && book.now == s.now
      && forall b :: b in book.list ==> b in known && Sync(b, if b in s.list[i..] then s.now - 1 else s.now)
    }

    lemma WalkAt(s: Book, script: Script, i: nat)
      requires InWalk(s, script, i) && i < |s.list|
      ensures s.list[i] in known && s.list[i] in book.list && Sync(s.list[i], book.now - 1)
      ensures s.list[i].next == if i + 1 < |s.list| then s.list[i + 1] else head
      ensures JobOf(book, s.list[i]) == JobOf(s, s.list[i]) && book.now == s.now
      ensures forall b :: b in s.list[i + 1..] ==> b in book.list
    {
      var a, later := s.list[i], s.list[i + 1..];
      var front := WalkShape(s, script, i);
      ShapeList(s, script, i, book, front);
      assert a in s.list[i..];
      hide Structure, Walked, Shape, Minus, Sync, Gone, DueOf;
      Following(front + Minus(s.list[..i], Gone(s, script, i)), a, later);
    }

    /** Alarms other than the one visited keep running with their jobs. */
    lemma VisitKeeps(k: Book, l: Book, a: Alarm, turn: Turn)
      requires l == (if JobOf(k, a).deadline == k.now then Turned(k, a, turn) else k) && a in k.list
      ensures l.now == k.now
      ensures forall b :: b in k.list && b != a ==> b in l.list && JobOf(l, b) == JobOf(k, b)
    {
      TurnOwn(k, a, turn);
      forall b | b in k.list && b != a
        ensures b in l.list && JobOf(l, b) == JobOf(k, b)
      {
        TurnKeeps(k, a, turn, b);
        hide Turned;
      }
    }

    /** The visit, and what it leaves alone. */
    method VisitOne(a: Alarm, turn: Turn)
      requires Structure() && a in known && a.next != null && a in book.list && Sound(a, turn)
      requires book.now > 0 && Sync(a, book.now - 1)
      modifies `book, head`next, head`previous, known`next, known`previous, known`due
      ensures Structure() && NewSync(old(book), a, true) && book.now == old(book).now
      ensures book == if JobOf(old(book), a).deadline == old(book).now then Turned(old(book), a, turn) else old(book)
      ensures forall b, t :: b in book.list && b in old(book).list && b != a && old(Sync(b, t)) ==> Sync(b, t)
    {
      ghost var k := book;
      hide Structure, Links, Turned, Sound, InSync, NewSync, JobOf;
      Visit(a, turn);
      VisitKeeps(k, book, a, turn);
    }

    /** The walk of AlarmBook, told by the book it is at. */
    lemma WalkNext(s: Book, script: Script, i: nat, k: Book)
      requires i < |s.list| && k == Walked(s, script, i)
      requires JobOf(k, s.list[i]) == JobOf(s, s.list[i]) && k.now == s.now
      ensures Walked(s, script, i + 1)
              == if JobOf(k, s.list[i]).deadline == k.now then Turned(k, s.list[i], script(s.list[i])) else k
    {
      WalkedStep(s, script, i);
    }

    /** One lap of alt_tick's loop: whatever the callback starts or stops, the walk goes on
        with the alarm that followed. */
    method Lap(a: Alarm, script: Script, ghost s: Book, ghost i: nat) returns (next: Alarm)
      requires InWalk(s, script, i) && i < |s.list| && a == s.list[i] && Sound(a, script(a))
      modifies `book, head`next, head`previous, known`next, known`previous, known`due
      ensures InWalk(s, script, i + 1)
      ensures next == if i + 1 < |s.list| then s.list[i + 1] else head
    {
      ghost var k := book;
      WalkAt(s, script, i);
      WalkNext(s, script, i, k);
      GoneStep(s, script, i);
      hide Structure, Walked, Turned, Sound, Sync, Gone, Once, JobOf, NewSync;
      next := a.next;
      VisitOne(a, script(a));
    }

    method Advance()
      requires Valid()
      modifies `nticks, `book
      ensures Structure() && book == Next(old(book))
      ensures forall b :: b in book.list ==> b in known && Sync(b, book.now - 1)
    {
      EpochOf(book.now, 1);
      nticks := (nticks + 1) % WRAP;
      book := Next(book);
    }

    lemma FirstOf()
      requires Links()
      ensures head.next == if book.list == [] then head else book.list[0]
      ensures Once(book.list) && head !in book.list
    {
      assert At(head, book.list, 0) == head && head.next == At(head, book.list, 1);
    }

    lemma WalkStarts(script: Script)
      requires Structure() && book.now > 0 && Once(book.list) && head !in book.list
      requires forall b :: b in book.list ==> b in known && Sync(b, book.now - 1)
      ensures InWalk(book, script, 0)
    {
      ShapeStarts(book, script);
      assert book.list[0..] == book.list;
    }

    /** The part of alt_tick before its loop. */
    method BeginTick(script: Script) returns (alarm: Alarm)
      requires Valid()
      modifies `nticks, `book
      ensures book == Next(old(book)) && InWalk(book, script, 0)
      ensures alarm == if book.list == [] then head else book.list[0]
    {
      FirstOf();
      hide Links, Structure, Sync, Once;
      alarm := head.next;
      Advance();
      WalkStarts(script);
    }

    /** alt_tick: the tick of AlarmBook, for every behaviour of the callbacks. */
    method Tick(script: Script)
      requires Valid() && forall a :: a in known ==> Sound(a, script(a))
      modifies `nticks, `book, head`next, head`previous, known`next, known`previous, known`due
      ensures Valid() && book == Ticked(old(book), script)
    {
      hide *;
      var alarm := BeginTick(script);
      ghost var s, i := book, 0;
      while alarm != head
        invariant 0 <= i <= |s.list| && InWalk(s, script, i)
        invariant alarm == if i < |s.list| then s.list[i] else head
        decreases |s.list| - i
      {
        WalkAt(s, script, i);
        alarm := Lap(alarm, script, s, i);
        i := i + 1;
      }
      WalkEnds(old(book), s, script, i);
    }

    lemma WalkEnds(k: Book, s: Book, script: Script, i: nat)
      requires InWalk(s, script, i) && s == Next(k) && (i < |s.list| ==> s.list[i] == head)
      ensures Valid() && book == Ticked(k, script)
    {
      assert i == |s.list| && s.list[..i] == s.list && s.list[i..] == [];
    }
  }
}
