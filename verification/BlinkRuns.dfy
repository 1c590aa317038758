/** Whole runs of the blink list: ages of its blinkers, lock-step, and what video memory shows. */
module BlinkRuns {
  import opened Bytes
  import opened BlinkTimers
  import opened Blinks

  datatype Op = AddOp(b: Blinker) | RemoveOp(location: Word16) | SyncOp(from: Word16, to: Word16) | TickOp

  function Fresh(b: Blinker): Blinker {
    b.(timer := Started(b.timer.onLength, b.timer.offLength))
  }

  predicate Accepted(list: seq<Blinker>, b: Blinker) {
    0 < b.location < POOL && |list| < POOL
  }

  /** The list after one call, as the contracts of the four operations and the tasklet state it. */
  function Step(list: seq<Blinker>, op: Op): seq<Blinker> {
    match op
    case AddOp(b) => if Accepted(list, b) then [Fresh(b)] + list else list
    case RemoveOp(l) => var i := FirstAt(list, l); if i < |list| then Cut(list, i) else list
    case SyncOp(from, to) =>
      var i, j := FirstAt(list, from), FirstAt(list, to);
      if i < |list| && j < |list| then list[j := list[j].(timer := list[i].timer)] else list
    case TickOp => TickAll(list)
  }

  function Run(ops: seq<Op>): seq<Blinker> {
    if ops == [] then [] else Step(Run(ops[..|ops| - 1]), ops[|ops| - 1])
  }

  /** Video memory after one call on the list: an add shows the on character, a sync pokes the off
      character of its second blinker, and a tick redraws what toggles. */
  function Poked(vmem: seq<Byte>, list: seq<Blinker>, op: Op): (r: seq<Byte>)
    requires |vmem| == 4096 && OnScreen(list)
    ensures |r| == 4096
  {
    match op
    case AddOp(b) => if Accepted(list, b) then vmem[2 * b.location := b.onChar] else vmem
    case RemoveOp(_) => vmem
    case SyncOp(from, to) =>
      var i, j := FirstAt(list, from), FirstAt(list, to);
      if i < |list| && j < |list| then vmem[2 * list[j].location := list[j].offChar] else vmem
    case TickOp => Redrawn(vmem, list, |list|)
  }

  ghost predicate OnScreen(list: seq<Blinker>) {
    forall i :: 0 <= i < |list| ==> list[i].location < POOL
  }

  lemma {:induction false} RunOnScreen(ops: seq<Op>)
    ensures OnScreen(Run(ops))
  {
    if ops != [] {
      RunOnScreen(ops[..|ops| - 1]);
    }
  }

  function Video(v0: seq<Byte>, ops: seq<Op>): (r: seq<Byte>)
    requires |v0| == 4096
    ensures |r| == 4096
  {
    if ops == [] then v0
    else
      RunOnScreen(ops[..|ops| - 1]);
      Poked(Video(v0, ops[..|ops| - 1]), Run(ops[..|ops| - 1]), ops[|ops| - 1])
  }

  /** No add at location 0, the mark of a free slot: the pool holds no well-linked list behind one. */
  ghost predicate Located(ops: seq<Op>) {
    forall k :: 0 <= k < |ops| && ops[k].AddOp? ==> ops[k].b.location != 0
  }

  /** One call on the list in the pool, as the program makes them. */
  method Perform(list: BlinkList, op: Op)
    requires list.Valid() && (op.AddOp? ==> op.b.location != 0)
    modifies list, list.pool, list.vmem
    ensures list.Valid() && list.List() == Step(old(list.List()), op)
    ensures list.vmem[..] == Poked(old(list.vmem[..]), old(list.List()), op)
  {
    match op
    case AddOp(b) =>
      ListAndFree(list.pool[..], list.head, list.order);
      var _ := list.Add(b);
    case RemoveOp(l) => var _ := list.Remove(l);
    case SyncOp(from, to) =>
      var arg := from * 0x1_0000 + to;
      assert arg / 0x1_0000 == from && arg % 0x1_0000 == to;
      var _ := list.Sync(arg);
    case TickOp => list.Tasklet();
  }

  /** Every run of calls, with added locations other than 0, leaves a well-linked list with the run's
      blinkers, and video memory as the run's pokes make it. */
  method Play(ops: seq<Op>) returns (list: BlinkList, ghost v0: seq<Byte>)
    requires Located(ops)
    ensures list.Valid() && list.List() == Run(ops) && |v0| == 4096 && list.vmem[..] == Video(v0, ops)
  {
    list := new BlinkList();
    v0 := list.vmem[..];
    for k := 0 to |ops|
      invariant list.Valid() && fresh(list) && fresh(list.pool) && fresh(list.vmem)
      invariant list.List() == Run(ops[..k]) && list.vmem[..] == Video(v0, ops[..k])
    {
      Perform(list, ops[k]);
      assert ops[..k + 1][..k] == ops[..k];
    }
    assert ops[..|ops|] == ops;
  }

  /** A remove right after an add at the same location takes the added blinker away, whatever else is there. */
  lemma RemoveUndoesAdd(list: seq<Blinker>, b: Blinker)
    requires 0 < b.location < 2000 && |list| < 2000
    ensures Step(Step(list, AddOp(b)), RemoveOp(b.location)) == list
  {
    var list' := Step(list, AddOp(b));
    assert FirstAt(list', b.location) == 0;
    assert Cut(list', 0) == list;
  }

  function TickSteps(list: seq<Blinker>, k: nat): seq<Blinker> {
    if k == 0 then list else Step(TickSteps(list, k - 1), TickOp)
  }

  /** k ticks after its add a blinker with lengths from 1 to 0x8000 is on in the first onLength ticks of each
      onLength + offLength. */
  lemma AddThenTicks(list: seq<Blinker>, b: Blinker, k: nat)
    requires 0 < b.location < 2000 && |list| < 2000
    requires 1 <= b.timer.onLength <= 0x8000 && 1 <= b.timer.offLength <= 0x8000
    ensures var r := TickSteps(Step(list, AddOp(b)), k);
            && |r| == |list| + 1 && r[0] == b.(timer := r[0].timer)
            && (r[0].timer.On() <==> k % (b.timer.onLength + b.timer.offLength) < b.timer.onLength)
  {
    TickStepsAre(Step(list, AddOp(b)), k);
    NominalExactly(b.timer.onLength, b.timer.offLength);
  }

  lemma {:induction false} TickStepsAre(list: seq<Blinker>, k: nat)
    ensures |TickSteps(list, k)| == |list|
    ensures forall i :: 0 <= i < |list| ==> TickSteps(list, k)[i] == list[i].(timer := Ticks(list[i].timer, k))
  {
    if k > 0 {
      TickStepsAre(list, k - 1);
    }
  }

  // ----- where each blinker is in its period -----

  /** Ticks since the add that each blinker's timer comes from: its own, or through a sync another one's. */
  function Ages(ops: seq<Op>): (r: seq<nat>)
    ensures |r| == |Run(ops)|
  {
    if ops == [] then []
    else
      var list, ages := Run(ops[..|ops| - 1]), Ages(ops[..|ops| - 1]);
      match ops[|ops| - 1]
      case AddOp(b) => if Accepted(list, b) then [0] + ages else ages
      case RemoveOp(l) => var i := FirstAt(list, l); if i < |list| then Cut(ages, i) else ages
      case SyncOp(from, to) =>
        var i, j := FirstAt(list, from), FirstAt(list, to);
        if i < |list| && j < |list| then ages[j := ages[i]] else ages
      case TickOp => seq(|ages|, i requires 0 <= i < |ages| => ages[i] + 1)
  }

  ghost predicate OnSchedule(b: Blinker, age: nat) {
    b.timer == Ticks(Started(b.timer.onLength, b.timer.offLength), age)
  }

  lemma {:induction false} TicksKeepLengths(t: Timer, k: nat)
    ensures Ticks(t, k).onLength == t.onLength && Ticks(t, k).offLength == t.offLength
  {
    if k > 0 {
      TicksKeepLengths(t, k - 1);
    }
  }

  /** In every run of adds (with locations other than 0), removes, syncs and ticks, every blinker is where the
      ticks since the add that its timer comes from put it. */
  lemma {:induction false} EveryBlinkerOnSchedule(ops: seq<Op>, i: nat)
    requires Located(ops) && i < |Run(ops)|
    ensures var t := Run(ops)[i].timer;
            t == AtPhase(t.onLength, t.offLength, Phase(t.onLength, t.offLength, Ages(ops)[i]))
  {
    EveryBlinkerTicked(ops);
    var t := Run(ops)[i].timer;
    assert OnSchedule(Run(ops)[i], Ages(ops)[i]);
    TicksClosedForm(t.onLength, t.offLength, Ages(ops)[i]);
  }

  lemma {:induction false} EveryBlinkerTicked(ops: seq<Op>)
    ensures AllOnSchedule(Run(ops), Ages(ops))
  {
    if ops != [] {
      var before := ops[..|ops| - 1];
      var list, ages := Run(before), Ages(before);
      EveryBlinkerTicked(before);
      match ops[|ops| - 1]
      case AddOp(b) => AddKeepsSchedule(list, ages, b);
      case RemoveOp(l) => CutKeepsSchedule(list, ages, FirstAt(list, l));
      case SyncOp(from, to) => SyncKeepsSchedule(list, ages, FirstAt(list, from), FirstAt(list, to));
      case TickOp =>
        forall i | 0 <= i < |list|
          ensures OnSchedule(TickAll(list)[i], ages[i] + 1)
        {
          TickKeepsSchedule(list[i], ages[i]);
        }
    }
  }

  ghost predicate AllOnSchedule(list: seq<Blinker>, ages: seq<nat>) {
    |ages| == |list| && forall i :: 0 <= i < |list| ==> OnSchedule(list[i], ages[i])
  }

  lemma TickKeepsSchedule(b: Blinker, age: nat)
    requires OnSchedule(b, age)
    ensures OnSchedule(TickOne(b), age + 1)
  {
    TicksKeepLengths(Started(b.timer.onLength, b.timer.offLength), age + 1);
  }

  lemma AddKeepsSchedule(list: seq<Blinker>, ages: seq<nat>, b: Blinker)
    requires AllOnSchedule(list, ages)
    ensures AllOnSchedule([Fresh(b)] + list, [0] + ages)
  {
    assert OnSchedule(Fresh(b), 0);
    assert forall i :: 0 < i < |list| + 1 ==> ([Fresh(b)] + list)[i] == list[i - 1] && ([0] + ages)[i] == ages[i - 1];
  }

  lemma CutKeepsSchedule(list: seq<Blinker>, ages: seq<nat>, c: nat)
    requires AllOnSchedule(list, ages)
    ensures c < |list| ==> AllOnSchedule(Cut(list, c), Cut(ages, c))
  {
  }

  lemma SyncKeepsSchedule(list: seq<Blinker>, ages: seq<nat>, i: nat, j: nat)
    requires AllOnSchedule(list, ages)
    ensures i < |list| && j < |list| ==> AllOnSchedule(list[j := list[j].(timer := list[i].timer)], ages[j := ages[i]])
  {
  }

  function TicksAll(list: seq<Blinker>, k: nat): (r: seq<Blinker>)
    ensures |r| == |list|
  {
    if k == 0 then list else TickAll(TicksAll(list, k - 1))
  }

  /** Two blinkers made equal by sync stay in lock-step for every number of ticks. */
  lemma {:induction false} SyncedInLockStep(list: seq<Blinker>, from: Word16, to: Word16, k: nat)
    requires FirstAt(list, from) < |list| && FirstAt(list, to) < |list|
    ensures var i, j := FirstAt(list, from), FirstAt(list, to);
            var r := TicksAll(Step(list, SyncOp(from, to)), k);
            r[j].timer == r[i].timer == Ticks(list[i].timer, k)
  {
    if k > 0 {
      SyncedInLockStep(list, from, to, k - 1);
    }
  }

  // ----- what video memory shows -----

  ghost predicate Shows(vmem: seq<Byte>, b: Blinker)
    requires |vmem| == 4096
  {
    b.location < POOL && vmem[2 * b.location] == Char(b)
  }

  /** No two blinkers at one location. */
  ghost predicate Apart(list: seq<Blinker>) {
    OnScreen(list) && forall i, j :: 0 <= i < j < |list| ==> list[i].location != list[j].location
  }

  /** With one blinker a location, a tasklet call redraws each blinker that toggles and no other. */
  lemma {:induction false} TaskletRedraws(vmem: seq<Byte>, list: seq<Blinker>, n: nat)
    requires |vmem| == 4096 && Apart(list) && n <= |list|
    ensures forall i :: 0 <= i < |list| ==>
              Redrawn(vmem, list, n)[2 * list[i].location] ==
                if i < n && Toggles(list[i]) then Char(TickOne(list[i])) else vmem[2 * list[i].location]
  {
    if n > 0 {
      TaskletRedraws(vmem, list, n - 1);
    }
  }

  /** The redraw of sync shows the status it has just copied only when that status is off, or nothing tells the
      two apart. */
  lemma SyncRedraw(vmem: seq<Byte>, b: Blinker, t: Timer)
    requires |vmem| == 4096 && b.location < POOL
    ensures Shows(vmem[2 * b.location := b.offChar], b.(timer := t)) <==> !t.On() || b.onChar == b.offChar
  {
  }

  // ----- whole runs of video memory -----

  /** The adds of a run go to locations that no blinker has at the time. */
  ghost predicate AddsApart(ops: seq<Op>) {
    forall k :: 0 <= k < |ops| && ops[k].AddOp? ==> Vacant(Run(ops[..k]), ops[k].b.location)
  }

  ghost predicate Vacant(list: seq<Blinker>, location: Word16) {
    forall i :: 0 <= i < |list| ==> list[i].location != location
  }

  lemma AddsApartBefore(ops: seq<Op>)
    requires AddsApart(ops) && ops != []
    ensures var before, op := ops[..|ops| - 1], ops[|ops| - 1];
            AddsApart(before) && (op.AddOp? ==> Vacant(Run(before), op.b.location))
  {
    var before := ops[..|ops| - 1];
    forall k | 0 <= k < |before| && before[k].AddOp?
      ensures Vacant(Run(before[..k]), before[k].b.location)
    {
      assert before[..k] == ops[..k] && before[k] == ops[k];
    }
  }

  /** A sync leaves its second blinker stale when it gives it an on timer and pokes a different off
      character; toggling cures that. */
  function StaleStep(list: seq<Blinker>, stale: seq<bool>, op: Op): (r: seq<bool>)
    requires |stale| == |list|
    ensures |r| == |Step(list, op)|
  {
    match op
    case AddOp(b) => if Accepted(list, b) then [false] + stale else stale
    case RemoveOp(l) => var i := FirstAt(list, l); if i < |list| then Cut(stale, i) else stale
    case SyncOp(from, to) =>
      var i, j := FirstAt(list, from), FirstAt(list, to);
      if i < |list| && j < |list| then stale[j := list[i].timer.On() && list[j].onChar != list[j].offChar] else stale
    case TickOp => seq(|stale|, i requires 0 <= i < |stale| => stale[i] && !Toggles(list[i]))
  }

  function Stale(ops: seq<Op>): (r: seq<bool>)
    ensures |r| == |Run(ops)|
  {
    if ops == [] then []
    else StaleStep(Run(ops[..|ops| - 1]), Stale(ops[..|ops| - 1]), ops[|ops| - 1])
  }

  ghost predicate AllShow(vmem: seq<Byte>, list: seq<Blinker>, stale: seq<bool>)
    requires |vmem| == 4096 && |stale| == |list|
  {
    forall i :: 0 <= i < |list| ==> (Shows(vmem, list[i]) <==> !stale[i])
  }

  /** In every run whose adds go to vacant locations other than 0, video memory shows the status of every blinker but
      exactly those that a sync has left stale; without a sync, of every blinker. */
  lemma {:induction false} RunShows(v0: seq<Byte>, ops: seq<Op>)
    requires |v0| == 4096 && Located(ops) && AddsApart(ops)
    ensures Apart(Run(ops)) && AllShow(Video(v0, ops), Run(ops), Stale(ops))
    ensures forall i :: 0 <= i < |Run(ops)| ==>
              var b := Run(ops)[i];
              && b.location < 2000
              && (Video(v0, ops)[2 * b.location] == (if b.timer.On() then b.onChar else b.offChar) <==> !Stale(ops)[i])
    ensures (forall k :: 0 <= k < |ops| ==> !ops[k].SyncOp?) ==> forall i :: 0 <= i < |Run(ops)| ==> !Stale(ops)[i]
  {
    if ops != [] {
      var before, op := ops[..|ops| - 1], ops[|ops| - 1];
      AddsApartBefore(ops);
      RunShows(v0, before);
      StepShows(Video(v0, before), Run(before), Stale(before), op);
    }
  }

  lemma StepShows(v: seq<Byte>, list: seq<Blinker>, stale: seq<bool>, op: Op)
    requires |v| == 4096 && Apart(list) && |stale| == |list| && AllShow(v, list, stale)
    requires op.AddOp? ==> Vacant(list, op.b.location)
    ensures Apart(Step(list, op)) && AllShow(Poked(v, list, op), Step(list, op), StaleStep(list, stale, op))
    ensures !op.SyncOp? && (forall i :: 0 <= i < |stale| ==> !stale[i]) ==>
              forall i :: 0 <= i < |Step(list, op)| ==> !StaleStep(list, stale, op)[i]
  {
    match op
    case AddOp(b) => AddShows(v, list, stale, b);
    case RemoveOp(l) => RemoveShows(v, list, stale, FirstAt(list, l));
    case SyncOp(from, to) => SyncShows(v, list, stale, FirstAt(list, from), FirstAt(list, to));
    case TickOp => TickShows(v, list, stale);
  }

  lemma AddShows(v: seq<Byte>, list: seq<Blinker>, stale: seq<bool>, b: Blinker)
    requires |v| == 4096 && Apart(list) && |stale| == |list| && AllShow(v, list, stale) && Vacant(list, b.location)
    ensures Accepted(list, b) ==>
              var list' := [Fresh(b)] + list;
              Apart(list') && AllShow(v[2 * b.location := b.onChar], list', [false] + stale)
  {
    if Accepted(list, b) {
      var list' := [Fresh(b)] + list;
      assert forall i :: 0 < i < |list'| ==> list'[i] == list[i - 1] && ([false] + stale)[i] == stale[i - 1];
    }
  }

  lemma RemoveShows(v: seq<Byte>, list: seq<Blinker>, stale: seq<bool>, c: nat)
    requires |v| == 4096 && Apart(list) && |stale| == |list| && AllShow(v, list, stale)
    ensures c < |list| ==> Apart(Cut(list, c)) && AllShow(v, Cut(list, c), Cut(stale, c))
  {
  }

  lemma SyncShows(v: seq<Byte>, list: seq<Blinker>, stale: seq<bool>, i: nat, j: nat)
    requires |v| == 4096 && Apart(list) && |stale| == |list| && AllShow(v, list, stale)
    ensures i < |list| && j < |list| ==>
              var list', b := list[j := list[j].(timer := list[i].timer)], list[j];
              && Apart(list')
              && AllShow(v[2 * b.location := b.offChar], list', stale[j := list[i].timer.On() && b.onChar != b.offChar])
  {
    if i < |list| && j < |list| {
      SyncRedraw(v, list[j], list[i].timer);
    }
  }

  lemma TickShows(v: seq<Byte>, list: seq<Blinker>, stale: seq<bool>)
    requires |v| == 4096 && Apart(list) && |stale| == |list| && AllShow(v, list, stale)
    ensures Apart(TickAll(list))
    ensures AllShow(Redrawn(v, list, |list|), TickAll(list),
                    seq(|stale|, i requires 0 <= i < |stale| => stale[i] && !Toggles(list[i])))
  {
    TaskletRedraws(v, list, |list|);
    forall i | 0 <= i < |list|
      ensures Shows(Redrawn(v, list, |list|), TickAll(list)[i]) <==> !(stale[i] && !Toggles(list[i]))
    {
      if !Toggles(list[i]) {
        StatusKept(list[i]);
      }
    }
  }

  lemma StatusKept(b: Blinker)
    requires !Toggles(b)
    ensures Char(TickOne(b)) == Char(b) && TickOne(b).location == b.location
  {
  }
}
