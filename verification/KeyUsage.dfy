/** The batched usage counters of API keys: recorded in memory, flushed to the database in the background. */
module KeyUsage {

  type KeyId = string

  type Counts = map<KeyId, nat>

  function At(m: Counts, id: KeyId): nat {
    if id in m then m[id] else 0
  }

  function Add(m: Counts, id: KeyId, n: nat): Counts {
    m[id := At(m, id) + n]
  }

  /** An update on its way to the database. */
  datatype Write = Write(id: KeyId, count: nat)

  /** The uses of `id` that a list of updates carries. */
  function Carried(writes: seq<Write>, id: KeyId): nat {
    if writes == [] then 0
    else Carried(writes[..|writes| - 1], id) + if writes[|writes| - 1].id == id then writes[|writes| - 1].count else 0
  }

  class UsageBuffer {
    var pendingUsage: Counts

    constructor ()
      ensures pendingUsage == map[]
    {
      pendingUsage := map[];
    }

    method RecordUsage(id: KeyId)
      modifies this
      ensures pendingUsage == Add(old(pendingUsage), id, 1)
    {
      var count := if id in pendingUsage then pendingUsage[id] else 0;
      pendingUsage := pendingUsage[id := count + 1];
    }

    /** The part of a flush before the updates are sent: list the entries and clear the buffer. */
    method TakePending() returns (entries: seq<Write>)
      modifies this
      ensures pendingUsage == map[]
      ensures forall id :: Carried(entries, id) == At(old(pendingUsage), id)
    {
      entries := [];
      var left := pendingUsage.Keys;
      while left != {}
        invariant left <= pendingUsage.Keys
        invariant forall id :: Carried(entries, id) == if id in left then 0 else At(pendingUsage, id)
        decreases left
      {
        var id :| id in left;
        ghost var before := entries;
        entries := entries + [Write(id, pendingUsage[id])];
        assert entries[..|entries| - 1] == before;
        left := left - {id};
      }
      pendingUsage := map[];
    }
  }

  // ---------------------------------------------------------------------
  // Any interleaving of uses, flushes and finishing or failing updates.
  // ---------------------------------------------------------------------

  datatype State = State(pending: Counts, inFlight: seq<Write>, stored: Counts, lost: Counts)

  const Empty := State(map[], [], map[], map[])

  datatype Event =
    | Record(id: KeyId)
    | Flush(entries: seq<Write>)
    | Settle(index: nat, ok: bool)

  ghost predicate Enabled(s: State, e: Event) {
    match e
    case Record(_) => true
    case Flush(entries) => forall id :: Carried(entries, id) == At(s.pending, id)
    case Settle(index, _) => index < |s.inFlight|
  }

  function Next(s: State, e: Event): State
    requires e.Settle? ==> e.index < |s.inFlight|
  {
    match e
    case Record(id) => s.(pending := Add(s.pending, id, 1))
    case Flush(entries) => s.(pending := map[], inFlight := s.inFlight + entries)
    case Settle(index, ok) =>
      var w := s.inFlight[index];
      var rest := s.inFlight[..index] + s.inFlight[index + 1..];
      if ok then s.(inFlight := rest, stored := Add(s.stored, w.id, w.count))
      else s.(inFlight := rest, lost := Add(s.lost, w.id, w.count))
  }

  ghost predicate IsRun(run: seq<State>, events: seq<Event>) {
    && |run| == |events| + 1 && run[0] == Empty
    && forall i | 0 <= i < |events| :: Enabled(run[i], events[i]) && run[i + 1] == Next(run[i], events[i])
  }

  function Recorded(events: seq<Event>, id: KeyId): nat {
    if events == [] then 0
    else Recorded(events[..|events| - 1], id) + if events[|events| - 1] == Record(id) then 1 else 0
  }

  lemma {:induction false} CarriedConcat(a: seq<Write>, b: seq<Write>, id: KeyId)
    ensures Carried(a + b, id) == Carried(a, id) + Carried(b, id)
    decreases |b|
  {
    if b == [] {
      assert a + b == a;
    } else {
      CarriedConcat(a, b[..|b| - 1], id);
      assert (a + b)[..|a + b| - 1] == a + b[..|b| - 1];
    }
  }

  lemma CarriedWithout(writes: seq<Write>, index: nat, id: KeyId)
    requires index < |writes|
    ensures Carried(writes, id)
            == Carried(writes[..index] + writes[index + 1..], id)
               + if writes[index].id == id then writes[index].count else 0
  {
    var w := writes[index];
    assert writes == writes[..index] + [w] + writes[index + 1..];
    CarriedConcat(writes[..index] + [w], writes[index + 1..], id);
    CarriedConcat(writes[..index], [w], id);
    CarriedConcat(writes[..index], writes[index + 1..], id);
  }

  function Accounted(s: State, id: KeyId): nat {
    At(s.pending, id) + Carried(s.inFlight, id) + At(s.stored, id) + At(s.lost, id)
  }

  /** A use is recorded at any time, and is then pending. */
  lemma UseIsPending(s: State, id: KeyId)
    ensures Enabled(s, Record(id)) && At(Next(s, Record(id)).pending, id) == At(s.pending, id) + 1
  {
  }

  lemma StepConserves(s: State, e: Event, id: KeyId)
    requires Enabled(s, e)
    ensures Accounted(Next(s, e), id) == Accounted(s, id) + if e == Record(id) then 1 else 0
  {
    match e
    case Record(_) =>
    case Flush(entries) => CarriedConcat(s.inFlight, entries, id);
    case Settle(index, _) => CarriedWithout(s.inFlight, index, id);
  }

  /** The uses of `id` in the update that `e` settles with the outcome `ok`. */
  function SettledBy(s: State, e: Event, id: KeyId, ok: bool): nat {
    if e.Settle? && e.ok == ok && e.index < |s.inFlight| && s.inFlight[e.index].id == id
    then s.inFlight[e.index].count else 0
  }

  /** The uses of `id` in the updates settled so far that succeeded, or failed. */
  function Settled(run: seq<State>, events: seq<Event>, i: nat, id: KeyId, ok: bool): nat
    requires i <= |events| <= |run|
  {
    if i == 0 then 0 else Settled(run, events, i - 1, id, ok) + SettledBy(run[i - 1], events[i - 1], id, ok)
  }

  lemma StepSettles(s: State, e: Event, id: KeyId)
    requires Enabled(s, e)
    ensures At(Next(s, e).stored, id) == At(s.stored, id) + SettledBy(s, e, id, true)
    ensures At(Next(s, e).lost, id) == At(s.lost, id) + SettledBy(s, e, id, false)
  {
  }

  /** What is stored came with the updates that succeeded, and what is lost with those that failed. */
  lemma {:induction false} OutcomeDecides(run: seq<State>, events: seq<Event>, i: nat, id: KeyId)
    requires IsRun(run, events) && i < |run|
    ensures At(run[i].stored, id) == Settled(run, events, i, id, true)
    ensures At(run[i].lost, id) == Settled(run, events, i, id, false)
    decreases i
  {
    if i > 0 {
      OutcomeDecides(run, events, i - 1, id);
      StepSettles(run[i - 1], events[i - 1], id);
    }
  }

  /**
   * However uses, flushes and updates interleave, every recorded use is in exactly one place: still
   * pending, on its way, stored in the database, or lost with an update that failed.
   */
  lemma {:induction false} UsesAreConserved(run: seq<State>, events: seq<Event>, i: nat, id: KeyId)
    requires IsRun(run, events) && i < |run|
    ensures Accounted(run[i], id) == Recorded(events[..i], id)
    decreases i
  {
    if i > 0 {
      UsesAreConserved(run, events, i - 1, id);
      StepConserves(run[i - 1], events[i - 1], id);
      assert events[..i][..i - 1] == events[..i - 1];
    }
  }
}
