/** The low watermark of running readers, and how transactions begin. */
module Watermarks {

  /** How many readers run at each timestamp. */
  datatype Readers = Readers(at: map<int, int>)

  /** The smallest timestamp a reader runs at. */
  ghost predicate IsMin(m: int, r: Readers) {
    m in r.at && forall t :: t in r.at ==> m <= t
  }

  ghost predicate Counted(r: Readers) { forall t :: t in r.at ==> r.at[t] > 0 }

  function Began(r: Readers, t: int): Readers {
    Readers(r.at[t := if t in r.at then r.at[t] + 1 else 1])
  }

  /** Ending a reader that does not run leaves an entry behind. */
  function Ended(r: Readers, t: int): Readers {
    if t in r.at && r.at[t] == 1 then Readers(r.at - {t})
    else Readers(r.at[t := (if t in r.at then r.at[t] else 0) - 1])
  }

  /** The first reader from `from` on, which the probe loops look for. */
  ghost predicate IsNext(m: int, r: Readers, from: int) {
    m in r.at && m >= from && forall t :: t in r.at && t >= from ==> m <= t
  }

  ghost predicate SomeFrom(r: Readers, from: int) { exists t :: t in r.at && t >= from }

  ghost predicate NoneBefore(r: Readers, from: int) { forall t :: t in r.at ==> t >= from }

  /** `live` has every reader that began and did not end, and the map counts exactly those. */
  ghost predicate Counts(r: Readers, live: multiset<int>) {
    forall t :: (t in r.at <==> t in live) && (t in live ==> r.at[t] == live[t])
  }

  ghost predicate IsLeast(m: int, live: multiset<int>) {
    m in live && forall t :: t in live ==> m <= t
  }

  /** What the fields hold. */
  datatype Track = Track(commitTs: int, watermark: int, running: Readers)
  {
    /** The watermark is the minimum over the running readers; without readers it has not overtaken the last commit. */
    ghost predicate Exact() {
      Counted(running) && if running.at == map[] then watermark <= commitTs else IsMin(watermark, running)
    }

    /** What a caller is told. */
    function Shown(): int { if running.at == map[] then commitTs else watermark }
  }

  lemma NoneLive(r: Readers, live: multiset<int>)
    ensures Counts(r, live) ==> (r.at == map[] <==> live == multiset{})
  {
    if Counts(r, live) {
      if live == multiset{} {
        assert forall t :: t !in r.at;
      }
      if r.at == map[] {
        assert forall t :: t !in live;
      }
    }
  }

  lemma CountsBegan(r: Readers, live: multiset<int>, t: int)
    requires Counts(r, live)
    ensures Counts(Began(r, t), live + multiset{t})
  {}

  lemma CountsEnded(r: Readers, live: multiset<int>, t: int)
    requires Counts(r, live) && t in live
    ensures Counts(Ended(r, t), live - multiset{t}) && t in r.at
  {}

  /** After a probe the watermark is the minimum if and only if no reader runs before where the probe began. */
  lemma ProbedExactly(s: Track, live: multiset<int>, from: int)
    requires Counts(s.running, live) && IsNext(s.watermark, s.running, from)
    ensures s.Exact() <==> forall t :: t in live ==> t >= from
  {}

  lemma EmptyIsExact(s: Track, live: multiset<int>)
    requires s.running.at == map[] && s.watermark == s.commitTs
    ensures s.Exact()
  {}

  lemma NextIsLater(m: int, r: Readers, from: int)
    requires IsNext(m, r, from)
    ensures m >= from
  {}

  /** Ending a reader of an exact watermark leaves none before it. */
  lemma EndedKeepsExact(s: Track, live: multiset<int>, t: int)
    requires Counts(s.running, live) && s.Exact() && t in live
    ensures forall x :: x in live - multiset{t} ==> x >= s.watermark
  {}

  class Watermark {
    var commitTs: int
    var watermark: int
    var running: Readers
    /** The readers that run, one entry each. */
    ghost var live: multiset<int>
    /** Turns of the probe loops so far. */
    ghost var turns: nat

    constructor (commitTs: int)
      ensures Exact() && this.commitTs == watermark == commitTs && running == Readers(map[]) && turns == 0
      ensures live == multiset{}
    {
      this.commitTs, watermark, running, live, turns := commitTs, commitTs, Readers(map[]), multiset{}, 0;
    }

    ghost function Now(): Track
      reads this
    {
      Track(commitTs, watermark, running)
    }

    ghost predicate Matches()
      reads this
    {
      Counts(running, live)
    }

    ghost predicate Exact()
      reads this
    {
      Matches() && Now().Exact()
    }

    /** Exact is what it should be: the watermark is the least running reader, or behind the last commit without any. */
    lemma ExactIsLeast()
      ensures Exact() <==> Matches() && if live == multiset{} then watermark <= commitTs else IsLeast(watermark, live)
      ensures Matches() ==> (running.at == map[] <==> live == multiset{})
    {
      NoneLive(running, live);
    }

    /** The first timestamp from the watermark on with a reader becomes the watermark. */
    method Probe()
      requires SomeFrom(running, watermark)
      modifies this`watermark, this`turns
      ensures IsNext(watermark, running, old(watermark))
      ensures turns == old(turns) + (watermark - old(watermark)) + 1
    {
      ghost var goal :| goal in running.at && goal >= watermark;
      var i := watermark;
      while true
        invariant old(watermark) == watermark <= i <= goal && turns == old(turns) + (i - watermark)
        invariant forall t :: watermark <= t < i ==> t !in running.at
        decreases goal - i
      {
        turns := turns + 1;
        if i in running.at {
          watermark := i;
          break;
        }
        i := i + 1;
      }
    }

    /** One reader more at a timestamp. */
    method Enter(readTs: int)
      modifies this`running, this`live
      ensures running == Began(old(running), readTs) && live == old(live) + multiset{readTs}
      ensures old(Matches()) ==> Matches()
    {
      hide Counts;
      if Matches() { CountsBegan(running, live, readTs); }
      live := live + multiset{readTs};
      ghost var was := running;
      if readTs !in running.at {
        running := Readers(running.at[readTs := 0]);
      }
      running := Readers(running.at[readTs := running.at[readTs] + 1]);
      assert running.at == Began(was, readTs).at;
    }

    /**
     * False stands for the exception: the reader would start before the last commit.  The loop ends if and only if some
     * reader, the new one included, runs at the watermark or later.  From an exact state the watermark is still the
     * minimum if and only if the new reader does not start before the readers that are running.
     */
    method AddTxn(readTs: int) returns (ok: bool)
      requires readTs >= commitTs ==> SomeFrom(Began(running, readTs), watermark)
      modifies this`watermark, this`running, this`live, this`turns
      ensures ok <==> readTs >= commitTs
      ensures !ok ==> Now() == old(Now()) && turns == old(turns) && live == old(live)
      ensures ok ==> live == old(live) + multiset{readTs}
      ensures old(Matches()) ==> Matches()
      ensures ok ==> running == Began(old(running), readTs) && IsNext(watermark, running, old(watermark))
      ensures ok ==> turns == old(turns) + (watermark - old(watermark)) + 1
      ensures ok && old(Matches()) ==> (Exact() <==> forall t :: t in live ==> t >= old(watermark))
      ensures ok && old(Exact()) ==> watermark == if old(running.at) == map[] then readTs else old(watermark)
      ensures ok && old(Exact()) ==> (Exact() <==> old(running.at) == map[] || readTs >= old(watermark))
    {
      hide Counts;
      if readTs < commitTs {
        return false;
      }
      ghost var was, from := running, watermark;
      Enter(readTs);
      assert readTs in running.at && (was.at != map[] && IsMin(watermark, was) ==> watermark in running.at);
      Probe();
      if Matches() { ProbedExactly(Now(), live, from); }
      return true;
    }

    /** One reader less at a timestamp, and no entry without readers. */
    method Leave(readTs: int)
      modifies this`running, this`live
      ensures running == Ended(old(running), readTs) && live == old(live) - multiset{readTs}
      ensures old(Matches()) && readTs in old(live) ==> Matches()
    {
      hide Counts;
      if Matches() && readTs in live { CountsEnded(running, live, readTs); }
      live := live - multiset{readTs};
      if readTs !in running.at {
        running := Readers(running.at[readTs := 0]);
      }
      running := Readers(running.at[readTs := running.at[readTs] - 1]);
      if running.at[readTs] == 0 {
        running := Readers(running.at - {readTs});
      }
      assert running.at == Ended(old(running), readTs).at;
    }

    /** Ends a reader.  Unless it was the last one, the loop ends if and only if some reader runs at the watermark or
        later.  The watermark drops if and only if the last reader leaves and it had overtaken the last commit. */
    method RemoveTxn(readTs: int)
      requires Ended(running, readTs).at == map[] || SomeFrom(Ended(running, readTs), watermark)
      modifies this`watermark, this`running, this`live, this`turns
      ensures running == Ended(old(running), readTs)
      ensures live == old(live) - multiset{readTs}
      ensures old(Matches()) && readTs in old(live) ==> Matches()
      ensures running.at == map[] ==> watermark == commitTs && turns == old(turns)
      ensures running.at != map[] ==>
        IsNext(watermark, running, old(watermark)) && turns == old(turns) + (watermark - old(watermark)) + 1
      ensures watermark >= old(watermark) <==> running.at != map[] || old(watermark) <= commitTs
      ensures old(Matches()) && readTs in old(live) ==>
        (Exact() <==> live == multiset{} || forall t :: t in live ==> t >= old(watermark))
      ensures old(Exact()) && readTs in old(live) ==> Exact()
    {
      hide Counts, IsNext, Track.Exact;
      ghost var was := Now();
      if Exact() && readTs in live { EndedKeepsExact(Now(), live, readTs); }
      Leave(readTs);
      NoneLive(running, live);
      if running.at == map[] {
        watermark := commitTs;
        EmptyIsExact(Now(), live);
        return;
      }
      Probe();
      NextIsLater(watermark, running, was.watermark);
      if Matches() { ProbedExactly(Now(), live, was.watermark); }
    }

    /** Harmless while readers run; without readers the commit timestamp must not fall behind the watermark. */
    method UpdateCommitTs(commitTs: int)
      modifies this`commitTs
      ensures this.commitTs == commitTs
      ensures running.at != map[] ==> Exact() == old(Exact())
      ensures running.at == map[] && Matches() ==> (Exact() <==> watermark <= commitTs)
    {
      this.commitTs := commitTs;
    }

    /** The last commit if nothing runs; else the smallest running read timestamp if and only if the watermark is it. */
    method GetWatermark() returns (r: int)
      ensures r == Now().Shown()
      ensures running.at == map[] ==> r == commitTs
      ensures Matches() && live == multiset{} ==> r == commitTs
      ensures Matches() && live != multiset{} ==> (Exact() <==> r in live && forall t :: t in live ==> r <= t)
    {
      ExactIsLeast();
      r := if running.at == map[] then commitTs else watermark;
    }
  }

  lemma SomeReader(r: Readers)
    requires r.at != map[]
    ensures exists t :: t in r.at
  {
    if forall t :: t !in r.at {
      assert false;
    }
  }

  // ---------- runs ----------

  datatype Op = Begin(readTs: int) | End(readTs: int) | Commit(commitTs: int)

  /** The calls that keep the watermark exact: no reader starts before the running ones, only running ones end, and
      without readers the last commit does not fall behind the watermark. */
  ghost predicate Allowed(s: Track, op: Op) {
    match op
    case Begin(t) => t < s.commitTs || s.running.at == map[] || t >= s.watermark
    case End(t) => t in s.running.at
    case Commit(c) => s.running.at != map[] || s.watermark <= c
  }

  /** What a call makes of an exact watermark. */
  ghost function Step(s: Track, op: Op): Track {
    match op
    case Begin(t) =>
      if t < s.commitTs then s
      else Track(s.commitTs, if s.running.at == map[] then t else s.watermark, Began(s.running, t))
    case End(t) =>
      var left := Ended(s.running, t);
      if left.at == map[] then Track(s.commitTs, s.commitTs, left)
      else if exists m :: IsMin(m, left) then (var m :| IsMin(m, left); Track(s.commitTs, m, left))
      else s.(running := left)
    case Commit(c) => s.(commitTs := c)
  }

  /** What a call costs beyond the watermark's advance and one turn: a refused reader saves its turn, the last one to
      leave saves it too but gives up what the watermark had advanced past the last commit. */
  ghost function Lost(s: Track, op: Op): int {
    match op
    case Begin(t) => if t < s.commitTs then -1 else 0
    case End(t) => if Ended(s.running, t).at == map[] then s.watermark - s.commitTs - 1 else 0
    case Commit(_) => 0
  }

  ghost function Steps(s: Track, ops: seq<Op>): Track {
    if ops == [] then s else Step(Steps(s, ops[..|ops| - 1]), ops[|ops| - 1])
  }

  /** How many readers a run began at a timestamp, those refused left out, and how many it ended there. */
  ghost function Begins(s: Track, ops: seq<Op>, t: int): nat {
    if ops == [] then 0
    else
      var (front, last) := (ops[..|ops| - 1], ops[|ops| - 1]);
      Begins(s, front, t) + if last == Begin(t) && t >= Steps(s, front).commitTs then 1 else 0
  }

  ghost function Ends(ops: seq<Op>, t: int): nat {
    if ops == [] then 0 else Ends(ops[..|ops| - 1], t) + if ops[|ops| - 1] == End(t) then 1 else 0
  }

  ghost predicate AllAllowed(s: Track, ops: seq<Op>) {
    forall k :: 0 <= k < |ops| ==> Allowed(Steps(s, ops[..k]), ops[k])
  }

  /** How many of the calls begin or end a reader. */
  function Calls(ops: seq<Op>): nat {
    if ops == [] then 0 else Calls(ops[..|ops| - 1]) + if ops[|ops| - 1].Commit? then 0 else 1
  }

  ghost function AllLost(s: Track, ops: seq<Op>): int {
    if ops == [] then 0
    else AllLost(s, ops[..|ops| - 1]) + Lost(Steps(s, ops[..|ops| - 1]), ops[|ops| - 1])
  }

  lemma MinIsUnique(a: int, b: int, r: Readers)
    requires IsMin(a, r) && IsMin(b, r)
    ensures a == b
  {}

  /** One call more or less at one timestamp. */
  ghost predicate Moves(was: multiset<int>, live: multiset<int>, commitTs: int, op: Op) {
    forall t :: live[t] + (if op == End(t) then 1 else 0) == was[t] + if op == Begin(t) && t >= commitTs then 1 else 0
  }

  /** At every timestamp as many readers run as ran there, plus those begun, minus those ended. */
  ghost predicate Balances(was: multiset<int>, live: multiset<int>, s: Track, ops: seq<Op>) {
    forall t :: live[t] + Ends(ops, t) == was[t] + Begins(s, ops, t)
  }

  lemma NoOps(live: multiset<int>, s: Track)
    ensures Balances(live, live, s, []) && Steps(s, []) == s && Calls([]) == AllLost(s, []) == 0
  {}

  lemma OneMoreOp(s: Track, ops: seq<Op>, k: nat)
    requires k < |ops|
    ensures Steps(s, ops[..k + 1]) == Step(Steps(s, ops[..k]), ops[k])
    ensures Calls(ops[..k + 1]) == Calls(ops[..k]) + Calls([ops[k]])
    ensures AllLost(s, ops[..k + 1]) == AllLost(s, ops[..k]) + Lost(Steps(s, ops[..k]), ops[k])
  {
    assert ops[..k + 1][..k] == ops[..k] && ops[..k + 1][k] == ops[k] && [ops[k]][..0] == [];
  }

  lemma BalancesOn(was: multiset<int>, before: multiset<int>, live: multiset<int>, s: Track, ops: seq<Op>, k: nat)
    requires k < |ops| && Balances(was, before, s, ops[..k])
    requires Moves(before, live, Steps(s, ops[..k]).commitTs, ops[k])
    ensures Balances(was, live, s, ops[..k + 1])
  {
    assert ops[..k + 1][..k] == ops[..k] && ops[..k + 1][k] == ops[k];
  }

  /** One call on an exact watermark is one step. */
  method RunOne(w: Watermark, op: Op)
    requires w.Exact() && Allowed(w.Now(), op)
    modifies w
    ensures w.Exact() && w.Now() == Step(old(w.Now()), op)
    ensures Moves(old(w.live), w.live, old(w.commitTs), op)
    ensures w.turns - old(w.turns)
      == w.watermark - old(w.watermark) + Calls([op]) + Lost(old(w.Now()), op)
  {
    assert Calls([op]) == if op.Commit? then 0 else 1 by { assert [op][..0] == []; }
    match op {
      case Begin(t) =>
        assert t >= w.commitTs ==> t in Began(w.running, t).at;
        assert w.running.at != map[] ==> w.watermark in Began(w.running, t).at;
        var _ := w.AddTxn(t);
      case End(t) =>
        if Ended(w.running, t).at != map[] { SomeReader(Ended(w.running, t)); }
        w.RemoveTxn(t);
        if w.running.at != map[] {
          ghost var m :| IsMin(m, w.running) && Step(old(w.Now()), op).watermark == m;
          MinIsUnique(m, w.watermark, w.running);
        }
      case Commit(c) =>
        w.UpdateCommitTs(c);
    }
  }

  /**
   * Over any run of calls that keep the watermark exact, the turns of the probe loops are accounted for to the last
   * one: the watermark's advance, one for each call that begins or ends a reader, and what was lost.
   */
  method Run(w: Watermark, ops: seq<Op>)
    requires w.Exact() && AllAllowed(w.Now(), ops)
    modifies w
    ensures w.Exact() && w.Now() == Steps(old(w.Now()), ops)
    ensures Balances(old(w.live), w.live, old(w.Now()), ops)
    ensures w.turns - old(w.turns) == w.watermark - old(w.watermark) + Calls(ops) + AllLost(old(w.Now()), ops)
  {
    hide Balances, Moves, Track.Exact, Counts, Step, Steps, Calls, Lost, AllLost;
    ghost var s := w.Now();
    var k := 0;
    assert ops[..0] == [];
    NoOps(w.live, s);
    while k < |ops|
      invariant 0 <= k <= |ops| && w.Exact() && w.Now() == Steps(s, ops[..k])
      invariant Balances(old(w.live), w.live, s, ops[..k])
      invariant w.turns - old(w.turns) == w.watermark - s.watermark + Calls(ops[..k]) + AllLost(s, ops[..k])
    {
      OneMoreOp(s, ops, k);
      ghost var before := w.live;
      RunOne(w, ops[k]);
      BalancesOn(old(w.live), before, w.live, s, ops, k);
      k := k + 1;
    }
    assert ops[..k] == ops;
  }

  /** Nobody reads past the last commit. */
  ghost predicate Behind(s: Track) {
    s.watermark <= s.commitTs && forall t :: t in s.running.at ==> t <= s.commitTs
  }

  /** Readers begin at the last commit or are refused, only running ones end, and commit timestamps never decrease. */
  ghost predicate Orderly(s: Track, op: Op) {
    match op
    case Begin(t) => t <= s.commitTs
    case End(t) => t in s.running.at
    case Commit(c) => c >= s.commitTs
  }

  ghost predicate Disciplined(s: Track, ops: seq<Op>) {
    forall k :: 0 <= k < |ops| ==> Orderly(Steps(s, ops[..k]), ops[k])
  }

  lemma OrderlyStep(s: Track, op: Op)
    requires s.Exact() && Behind(s) && Orderly(s, op)
    ensures Allowed(s, op) && Lost(s, op) <= 0
    ensures Step(s, op).Exact() && Behind(Step(s, op)) && Step(s, op).Shown() >= s.Shown()
  {
    if op.End? && Ended(s.running, op.readTs).at != map[] {
      LeastReader(Ended(s.running, op.readTs));
    }
  }

  lemma LeastReader(r: Readers)
    requires r.at != map[]
    ensures exists m :: IsMin(m, r)
  {
    SomeReader(r);
    var t :| t in r.at;
    LeastBelow(r, r.at.Keys, t);
  }

  lemma {:induction false} LeastBelow(r: Readers, keys: set<int>, t: int)
    requires keys <= r.at.Keys && t in keys && forall x :: x in r.at && x !in keys ==> exists y :: y in keys && y <= x
    ensures exists m :: IsMin(m, r)
    decreases |keys|
  {
    if x :| x in keys && x < t {
      var rest := keys - {t};
      forall z | z in r.at && z !in rest ensures exists y :: y in rest && y <= z {
        if z == t {
          assert x in rest && x <= z;
        } else {
          var y :| y in keys && y <= z;
          assert (if y == t then x else y) in rest;
        }
      }
      LeastBelow(r, rest, x);
    } else {
      assert IsMin(t, r);
    }
  }

  /**
   * Over a disciplined run the watermark stays the minimum, what a caller is told never decreases, and the loops turn
   * at most as often as the watermark advanced plus once for each reader begun or ended.  The state it ends in allows
   * the next disciplined run.
   */
  lemma {:induction false} Amortised(s: Track, ops: seq<Op>)
    requires s.Exact() && Behind(s) && Disciplined(s, ops)
    ensures AllAllowed(s, ops) && AllLost(s, ops) <= 0
    ensures Steps(s, ops).Exact() && Behind(Steps(s, ops)) && Steps(s, ops).Shown() >= s.Shown()
  {
    hide Lost, Allowed, Step, Orderly, Behind, Track.Exact, Track.Shown;
    if ops != [] {
      var n := |ops| - 1;
      assert forall k :: 0 <= k < n ==> ops[..n][..k] == ops[..k];
      Amortised(s, ops[..n]);
      OrderlyStep(Steps(s, ops[..n]), ops[n]);
      forall k | 0 <= k < |ops| ensures Allowed(Steps(s, ops[..k]), ops[k]) {
        if k < n {
          assert Allowed(Steps(s, ops[..n][..k]), ops[..n][k]);
        }
      }
    }
  }

  /** What a caller is told drops if and only if the last reader leaves a watermark past the last commit, or the last
      commit is set back while nobody reads. */
  lemma DropsExactly(s: Track, op: Op)
    requires s.Exact() && Allowed(s, op)
    ensures Step(s, op).Shown() < s.Shown() <==>
      || (op.End? && Ended(s.running, op.readTs).at == map[] && s.commitTs < s.watermark)
      || (op.Commit? && s.running.at == map[] && op.commitTs < s.commitTs)
  {
    if op.End? && Ended(s.running, op.readTs).at != map[] {
      LeastReader(Ended(s.running, op.readTs));
    }
  }

  /**
   * Readers that begin past the last commit undo the bound: each round advances the watermark and drops it again, so
   * the turns grow with the number of rounds while the watermark stays.
   */
  method Thrash(ahead: nat, rounds: nat) returns (w: Watermark)
    ensures w.Exact() && w.watermark == 0 && w.running == Readers(map[]) && w.live == multiset{}
    ensures w.turns == rounds * (ahead + 1)
    ensures w.commitTs == 0
  {
    w := new Watermark(0);
    var k := 0;
    while k < rounds
      invariant 0 <= k <= rounds && w.Exact() && w.watermark == w.commitTs == 0 && w.running == Readers(map[])
      invariant fresh(w) && w.live == multiset{} && w.turns == k * (ahead + 1)
    {
      var _ := w.AddTxn(ahead);
      w.RemoveTxn(ahead);
      k := k + 1;
    }
  }

  /** Two readers at one timestamp hold the watermark there until both are gone, whatever was committed meanwhile. */
  method TwoReaders(readTs: int, commitTs: int) returns (held: int, free: int)
    requires readTs <= commitTs
    ensures held == readTs && free == commitTs
  {
    var w := new Watermark(readTs);
    var _ := w.AddTxn(readTs);
    assert readTs in Began(w.running, readTs).at;
    var _ := w.AddTxn(readTs);
    w.UpdateCommitTs(commitTs);
    assert w.live == multiset{readTs, readTs} && readTs in Ended(w.running, readTs).at;
    w.RemoveTxn(readTs);
    assert w.live == multiset{readTs};
    held := w.GetWatermark();
    w.RemoveTxn(readTs);
    free := w.GetWatermark();
  }

  /** A reader that begins before the running ones is not tracked, and ending the others leaves nothing to probe for. */
  method EarlyReader() returns (w: Watermark)
    ensures w.running == Readers(map[5 := 1, 3 := 1]) && w.live == multiset{3, 5} && w.watermark == 5 && !w.Exact()
    ensures forall t :: t in Ended(w.running, 5).at ==> t < w.watermark
  {
    w := new Watermark(0);
    var _ := w.AddTxn(5);
    assert 5 in Began(w.running, 3).at;
    var _ := w.AddTxn(3);
    assert w.running.at == map[5 := 1, 3 := 1];
    assert 3 in w.running.at;
  }

  // ---------- transactions ----------

  const TXN_START_ID: int := 0x4000_0000_0000_0000

  datatype Transaction = Transaction(id: int, readTs: int)

  datatype Transactions = Transactions(byId: map<int, Transaction>)

  class TransactionManager {
    var nextTxnId: int
    var txns: Transactions
    var lastCommitTs: int
    const runningTxns: Watermark

    ghost predicate Valid()
      reads this, runningTxns
    {
      && runningTxns.Exact() && runningTxns.commitTs <= lastCommitTs
      && (forall id :: id in txns.byId ==> id < nextTxnId)
      && (forall t :: t in runningTxns.running.at ==> t <= lastCommitTs)
    }

    constructor ()
      ensures Valid() && fresh(runningTxns) && lastCommitTs == 0 && txns == Transactions(map[])
      ensures nextTxnId == 0x4000_0000_0000_0000 && runningTxns.live == multiset{}
    {
      nextTxnId, txns, lastCommitTs := TXN_START_ID, Transactions(map[]), 0;
      runningTxns := new Watermark(0);
    }

    /** Neither exception can happen: the id is new, and no commit is newer than the last one. */
    method Begin() returns (txn: Transaction)
      requires Valid()
      modifies this, runningTxns
      ensures Valid() && txn.id !in old(txns).byId && txns.byId == old(txns).byId[txn.id := txn]
      ensures txn.readTs == lastCommitTs == old(lastCommitTs) && nextTxnId == old(nextTxnId) + 1
      ensures txn.id == old(nextTxnId) && runningTxns.live == old(runningTxns.live) + multiset{txn.readTs}
      ensures runningTxns.running == Began(old(runningTxns.running), txn.readTs)
      ensures old(runningTxns.running.at) != map[] ==> runningTxns.watermark == old(runningTxns.watermark)
    {
      var id := nextTxnId;
      nextTxnId := nextTxnId + 1;
      assert id !in txns.byId;
      txn := Transaction(id, lastCommitTs);
      txns := Transactions(txns.byId[id := txn]);
      assert txn.readTs in Began(runningTxns.running, txn.readTs).at;
      assert runningTxns.running.at != map[] ==> runningTxns.watermark in Began(runningTxns.running, txn.readTs).at;
      var ok := runningTxns.AddTxn(txn.readTs);
      assert ok;
    }
  }
}
