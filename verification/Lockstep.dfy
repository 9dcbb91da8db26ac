/** GameClient/GameController.cpp: control messages arrive in a deque and are released frame by frame. */
module Lockstep {
  import opened Bytes
  import opened Sequences

  datatype Input = Input(playerId: i32, logicFrame: u32, direction: byte)

  /** The comparison of a signed frame with an unsigned one is made on unsigned numbers. */
  predicate Due(current: i32, input: Input) {
    ToU32(current) >= input.logicFrame
  }

  function DueCount(frame: u32, q: seq<Input>): (n: nat)
    ensures n <= |q|
    ensures forall i :: 0 <= i < n ==> q[i].logicFrame <= frame
    ensures n < |q| ==> q[n].logicFrame > frame
  {
    if q == [] || q[0].logicFrame > frame then 0 else 1 + DueCount(frame, q[1..])
  }

  /** The longest prefix that is due. */
  function Released(frame: u32, q: seq<Input>): seq<Input> {
    q[..DueCount(frame, q)]
  }

  lemma DueCountFrom(frame: u32, q: seq<Input>, k: nat)
    requires k <= |q|
    ensures DueCount(frame, q[k..]) ==
            if k < |q| && q[k].logicFrame <= frame then 1 + DueCount(frame, q[k + 1..]) else 0
  {
    if k < |q| {
      assert q[k..][1..] == q[k + 1..];
    }
  }

  datatype Event = Arrive(input: Input) | Pop(current: i32)

  datatype Client = Client(deque: seq<Input>, output: seq<Input>)

  function Step(c: Client, e: Event): Client {
    match e
    case Arrive(input) => c.(deque := c.deque + [input])
    case Pop(current) =>
      Client(c.deque[DueCount(ToU32(current), c.deque)..], c.output + Released(ToU32(current), c.deque))
  }

  /** GameController: `arrived` and `output` are histories. */
  class GameController {
    var inputDeque: seq<Input>
    ghost var arrived: seq<Input>
    ghost var output: seq<Input>

    /** Nothing is lost, repeated or reordered between arrival and release. */
    ghost predicate Valid()
      reads this
    {
      output + inputDeque == arrived
    }

    ghost function Model(): Client
      reads this
    {
      Client(inputDeque, output)
    }

    constructor ()
      ensures Valid() && Model() == Client([], []) && arrived == []
    {
      inputDeque, arrived, output := [], [], [];
    }

    /** The callback for CONTROL messages. */
    method OnControl(roleId: i32, tick: u32, direction: byte)
      requires Valid()
      modifies this
      ensures Valid() && arrived == old(arrived) + [Input(roleId, tick, direction)]
      ensures Model() == Step(old(Model()), Arrive(Input(roleId, tick, direction)))
    {
      inputDeque := inputDeque + [Input(roleId, tick, direction)];
      arrived := arrived + [Input(roleId, tick, direction)];
    }

    method PopInput(current: i32, before: seq<Input>) returns (result: seq<Input>)
      requires Valid()
      modifies this
      ensures Valid() && arrived == old(arrived)
      ensures Model() == Step(old(Model()), Pop(current))
      ensures result == before + Released(ToU32(current), old(inputDeque))
    {
      hide DueCount;
      ghost var q := inputDeque;
      result := before;
      ghost var k := 0;
      assert q[0..] == q;
      while inputDeque != []
        modifies this`inputDeque
        invariant k <= |q| && inputDeque == q[k..] && result == before + q[..k]
        invariant DueCount(ToU32(current), q) == k + DueCount(ToU32(current), q[k..])
      {
        DueCountFrom(ToU32(current), q, k);
        if Due(current, inputDeque[0]) {
          result := result + [inputDeque[0]];
          inputDeque := inputDeque[1..];
          k := k + 1;
        } else {
          break;
        }
      }
      DueCountFrom(ToU32(current), q, k);
      Assoc(output, q[..k], q[k..]);
      output := output + q[..k];
    }
  }

  function Run(c: Client, es: seq<Event>): Client
    decreases |es|
  {
    if es == [] then c else Run(Step(c, es[0]), es[1..])
  }

  function Arrivals(es: seq<Event>): seq<Input> {
    if es == [] then [] else Arrived(es[0]) + Arrivals(es[1..])
  }

  ghost predicate PopsUpTo(es: seq<Event>, frame: u32) {
    forall e :: e in es && e.Pop? ==> ToU32(e.current) <= frame
  }

  function Arrived(e: Event): seq<Input> {
    if e.Arrive? then [e.input] else []
  }

  lemma StepOutput(c: Client, e: Event)
    ensures Step(c, e).output + Step(c, e).deque == c.output + c.deque + Arrived(e)
  {
  }

  /** Nothing is lost, repeated or reordered, whatever the frames of the pops. */
  lemma {:induction false} OutputThenDeque(c: Client, es: seq<Event>)
    ensures Run(c, es).output + Run(c, es).deque == c.output + c.deque + Arrivals(es)
    decreases |es|
  {
    hide Step, Arrived;
    if es != [] {
      StepOutput(c, es[0]);
      OutputThenDeque(Step(c, es[0]), es[1..]);
      var out, one, later := c.output + c.deque, Arrived(es[0]), Arrivals(es[1..]);
      Assoc(out, one, later);
    }
  }

  ghost predicate AllDue(frame: u32, q: seq<Input>) {
    forall i :: 0 <= i < |q| ==> q[i].logicFrame <= frame
  }

  lemma {:induction false} NothingEarly(c: Client, es: seq<Event>, frame: u32)
    requires PopsUpTo(es, frame) && AllDue(frame, c.output)
    ensures AllDue(frame, Run(c, es).output)
    decreases |es|
  {
    if es != [] {
      assert es[0] in es;
      NothingEarly(Step(c, es[0]), es[1..], frame);
    }
  }

  lemma {:induction false} DueCountAfter(frame: u32, p: seq<Input>, q: seq<Input>)
    requires AllDue(frame, p)
    ensures DueCount(frame, p + q) == |p| + DueCount(frame, q)
  {
    if p == [] {
      assert p + q == q;
    } else {
      DueCountAfter(frame, p[1..], q);
      assert (p + q)[1..] == p[1..] + q;
    }
  }

  /** The output is independent of the schedule: however arrivals and pops up to a frame are interleaved, after
      a pop at that frame the total output is the longest due prefix of what has arrived. */
  lemma ScheduleIndependent(es: seq<Event>, current: i32)
    requires PopsUpTo(es, ToU32(current))
    ensures Step(Run(Client([], []), es), Pop(current)).output == Released(ToU32(current), Arrivals(es))
  {
    hide Run, Arrivals, DueCount;
    var frame, c := ToU32(current), Run(Client([], []), es);
    OutputThenDeque(Client([], []), es);
    NothingEarly(Client([], []), es, frame);
    DueCountAfter(frame, c.output, c.deque);
    assert c.output + c.deque == Arrivals(es);
  }

  function Filter(frame: u32, q: seq<Input>): seq<Input> {
    if q == [] then [] else (if q[0].logicFrame <= frame then [q[0]] else []) + Filter(frame, q[1..])
  }

  lemma {:induction false} FilterOfNotDue(frame: u32, q: seq<Input>)
    ensures Filter(frame, q) == [] <==> forall i :: 0 <= i < |q| ==> q[i].logicFrame > frame
  {
    if q != [] {
      FilterOfNotDue(frame, q[1..]);
      assert forall i :: 1 <= i < |q| ==> q[i] == q[1..][i - 1];
    }
  }

  /** The deque releases everything that is due if and only if nothing due stands behind something that is
      not: an input with a smaller frame behind a larger one waits for the larger one. */
  lemma {:induction false} ReleasesAllDueIff(frame: u32, q: seq<Input>)
    ensures Released(frame, q) == Filter(frame, q) <==>
            forall i :: DueCount(frame, q) <= i < |q| ==> q[i].logicFrame > frame
  {
    if q != [] {
      if q[0].logicFrame <= frame {
        ReleasesAllDueIff(frame, q[1..]);
        var n := DueCount(frame, q[1..]);
        assert Released(frame, q) == [q[0]] + Released(frame, q[1..]);
        assert Filter(frame, q) == [q[0]] + Filter(frame, q[1..]);
        assert Released(frame, q)[1..] == Released(frame, q[1..]) && Filter(frame, q)[1..] == Filter(frame, q[1..]);
        assert forall i :: 1 <= i < |q| ==> q[i] == q[1..][i - 1];
      } else {
        FilterOfNotDue(frame, q);
      }
    }
  }

  ghost predicate InFrameOrder(q: seq<Input>) {
    forall i, j :: 0 <= i < j < |q| ==> q[i].logicFrame <= q[j].logicFrame
  }

  lemma LaterInputsWait(frame: u32, a: seq<Input>, later: seq<Input>)
    requires forall i :: 0 <= i < |later| ==> later[i].logicFrame > frame
    ensures DueCount(frame, a + later) == DueCount(frame, a) && Released(frame, a + later) == Released(frame, a)
  {
    var n := DueCount(frame, a);
    assert a + later == a[..n] + (a[n..] + later);
    DueCountAfter(frame, a[..n], a[n..] + later);
    if a[n..] + later != [] {
      assert (a[n..] + later)[0] == if n < |a| then a[n] else later[0];
    }
  }

  lemma InOrderReleasesAllDue(frame: u32, q: seq<Input>)
    requires InFrameOrder(q)
    ensures Released(frame, q) == Filter(frame, q)
  {
    hide Released, Filter;
    var n := DueCount(frame, q);
    forall i | n <= i < |q|
      ensures q[i].logicFrame > frame
    {
      assert i > n ==> q[n].logicFrame <= q[i].logicFrame;
    }
    ReleasesAllDueIff(frame, q);
  }

  /** Arrivals in frame order are exactly what clients need: only then every pop releases all that is due. */
  lemma OrderMattersIff(q: seq<Input>)
    ensures InFrameOrder(q) <==> forall frame: u32 :: Released(frame, q) == Filter(frame, q)
  {
    hide Released, Filter;
    if InFrameOrder(q) {
      forall frame: u32
        ensures Released(frame, q) == Filter(frame, q)
      {
        InOrderReleasesAllDue(frame, q);
      }
    } else {
      var i, j :| 0 <= i < j < |q| && q[i].logicFrame > q[j].logicFrame;
      var frame := q[j].logicFrame;
      assert DueCount(frame, q) <= i;
      ReleasesAllDueIff(frame, q);
    }
  }

  /** Arrivals in frame order: after a pop at a frame exactly the inputs of frames up to it are out, and inputs
      of later frames that arrived or did not arrive make no difference. */
  lemma ReleasesTheFrame(es: seq<Event>, current: i32, later: seq<Input>)
    requires PopsUpTo(es, ToU32(current)) && InFrameOrder(Arrivals(es) + later)
    requires forall i :: 0 <= i < |later| ==> later[i].logicFrame > ToU32(current)
    ensures Step(Run(Client([], []), es), Pop(current)).output == Filter(ToU32(current), Arrivals(es) + later)
  {
    hide Step, Run, Released, Filter;
    ScheduleIndependent(es, current);
    LaterInputsWait(ToU32(current), Arrivals(es), later);
    InOrderReleasesAllDue(ToU32(current), Arrivals(es) + later);
  }

  /** The same for a client that has received some first part of a record. */
  lemma ReleasesTheRecord(es: seq<Event>, current: i32, record: seq<Input>)
    requires PopsUpTo(es, ToU32(current)) && InFrameOrder(record) && Arrivals(es) <= record
    requires forall i :: |Arrivals(es)| <= i < |record| ==> record[i].logicFrame > ToU32(current)
    ensures Step(Run(Client([], []), es), Pop(current)).output == Filter(ToU32(current), record)
  {
    hide Step, Run, Filter, Arrivals;
    var later := record[|Arrivals(es)|..];
    assert record == Arrivals(es) + later;
    ReleasesTheFrame(es, current, later);
  }

  /** A pop releases nothing ahead of its frame, on every deque, if and only if the frame is not negative. */
  lemma NeverAheadIff(current: i32)
    ensures current >= 0 <==>
            forall q: seq<Input>, i :: 0 <= i < DueCount(ToU32(current), q) ==> q[i].logicFrame <= current
  {
    if current < 0 {
      var q := [Input(0, 0, 0)];
      assert DueCount(ToU32(current), q) == 1 + DueCount(ToU32(current), q[1..]);
      assert q[0].logicFrame > current;
    }
  }
}
