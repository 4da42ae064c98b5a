/** The vectors generated by yang_vector_impl and yang_vector_impl2: an array that grows by five,
    with a count of the elements in use. The two forms differ in what a NULL value inserts. */
module GrowableVector {
  import opened Basics
  import Memory

  /* ---- the sequence behind the array, and its capacity ---- */

  datatype State<T> = State(items: seq<T>, capacity: nat)

  datatype Event<T> =
    | Insert(value: T)
    | InsertNull(form: int, zero: T) // form 1 appends a zeroed element, form 2 nothing
    | Remove(index: int)
    | Clear
    | Destroy

  function Grown<T>(st: State<T>): State<T> {
    if |st.items| >= st.capacity then st.(capacity := st.capacity + 5) else st
  }

  function RemoveAt<T>(items: seq<T>, index: int): seq<T>
    requires 0 <= index || |items| <= 1
  {
    if |items| == 0 || index >= |items| then items
    else if |items| == 1 then []
    else Delete(items, index)
  }

  // A negative index is only defined on a vector of at most one element.
  predicate Allowed<T>(st: State<T>, e: Event<T>) {
    e.Remove? ==> 0 <= e.index || |st.items| <= 1
  }

  function Step<T>(st: State<T>, e: Event<T>): State<T>
    requires Allowed(st, e)
  {
    match e
    case Insert(v) => Grown(st).(items := st.items + [v])
    case InsertNull(form, zero) => if form == 1 then Grown(st).(items := st.items + [zero]) else Grown(st)
    case Remove(i) => st.(items := RemoveAt(st.items, i))
    case Clear => st.(items := [])
    case Destroy => State([], 0)
  }

  // A run from creation: the state it leads to, the peak size on the way, whether every step was
  // allowed, and whether every insert appended an element.
  datatype Log<T> = Log(now: State<T>, peak: nat, ok: bool, tight: bool)

  function Run<T>(events: seq<Event<T>>): Log<T>
    decreases |events|
  {
    if events == [] then Log(State([], 5), 0, true, true)
    else
      var before, e := Run(events[..|events| - 1]), events[|events| - 1];
      if !before.ok || !Allowed(before.now, e) then before.(ok := false)
      else
        var now := Step(before.now, e);
        Log(now, Max(before.peak, |now.items|), true, before.tight && AppendsOne(e))
  }

  predicate AppendsOne<T>(e: Event<T>) {
    e.InsertNull? ==> e.form == 1
  }

  // What a run with the given peak size keeps: the elements fit, and the capacity is a multiple
  // of five, at most five above the peak; as long as form 2 gets no NULL, a capacity above five
  // is less than five above the peak.
  predicate Fits(size: nat, capacity: nat, peak: nat, tight: bool) {
    && size <= capacity <= peak + 5 && size <= peak && capacity % 5 == 0
    && (tight ==> capacity <= 5 || capacity < peak + 5)
  }

  lemma StepFits<T>(st: State<T>, e: Event<T>, peak: nat, tight: bool)
    requires Fits(|st.items|, st.capacity, peak, tight) && Allowed(st, e)
    ensures var r := Step(st, e);
            Fits(|r.items|, r.capacity, Max(peak, |r.items|), tight && AppendsOne(e))
  {
    assert e.Remove? ==> |RemoveAt(st.items, e.index)| <= |st.items|;
  }

  lemma {:induction false} EveryRunFits<T>(events: seq<Event<T>>)
    ensures var r := Run(events); Fits(|r.now.items|, r.now.capacity, r.peak, r.tight)
    decreases |events|
  {
    if events == [] {
    } else {
      var before, e := Run(events[..|events| - 1]), events[|events| - 1];
      EveryRunFits(events[..|events| - 1]);
      if before.ok && Allowed(before.now, e) {
        StepFits(before.now, e, before.peak, before.tight);
      }
    }
  }

  // Both forms append a value at the end, growing a full array by five; a NULL appends a zeroed
  // element in the first form and nothing in the second, which grows all the same.
  lemma InsertIs<T>(st: State<T>, v: T)
    ensures var r := Step(st, Insert(v));
            && |r.items| == |st.items| + 1 && r.items[|st.items|] == v && r.items[..|st.items|] == st.items
            && r.capacity == if |st.items| < st.capacity then st.capacity else st.capacity + 5
  {
  }

  lemma InsertNullIs<T>(st: State<T>, form: int, zero: T)
    ensures var r := Step(st, InsertNull(form, zero));
            && (form == 1 ==> |r.items| == |st.items| + 1 && r.items[|st.items|] == zero
                              && r.items[..|st.items|] == st.items)
            && (form != 1 ==> r.items == st.items)
            && r.capacity == if |st.items| < st.capacity then st.capacity else st.capacity + 5
  {
  }

  // Removing from an empty vector or past the end changes nothing, from one element leaves none, and
  // neither removing nor clearing gives capacity back; destroying does.
  lemma EmptiedIs<T>(st: State<T>, i: int)
    requires Allowed(st, Remove(i))
    ensures var r := Step(st, Remove(i));
            && r.capacity == st.capacity && (|st.items| == 0 || |st.items| <= i ==> r == st)
            && (|st.items| == 1 && i <= 0 ==> r.items == [])
    ensures Step(st, Clear) == State([], st.capacity) && Step(st, Destroy) == State([], 0)
  {
  }

  // Inserting n values in a row leaves them in order behind what was there.
  function InsertAll<T>(st: State<T>, vs: seq<T>): State<T>
    decreases |vs|
  {
    if vs == [] then st else Step(InsertAll(st, vs[..|vs| - 1]), Insert(vs[|vs| - 1]))
  }

  lemma {:induction false} InsertAllAppends<T>(st: State<T>, vs: seq<T>)
    ensures InsertAll(st, vs).items == st.items + vs
    decreases |vs|
  {
    if vs == [] {
      assert st.items + vs == st.items;
    } else {
      var before, v := vs[..|vs| - 1], vs[|vs| - 1];
      InsertAllAppends(st, before);
      InsertIs(InsertAll(st, before), v);
      assert before + [v] == vs;
    }
  }

  // What each operation does to position k, and to the size.
  lemma RemoveKeepsOrder<T>(items: seq<T>, i: nat, k: nat)
    requires i < |items| && k < |items| - 1
    ensures |RemoveAt(items, i)| == |items| - 1
    ensures RemoveAt(items, i)[k] == items[if k < i then k else k + 1]
  {
    if 1 < |items| {
      DeleteAt(items, i, k);
    }
  }

  // Removing what was just inserted gives the elements back.
  lemma InsertThenRemove<T>(st: State<T>, v: T)
    ensures Step(Step(st, Insert(v)), Remove(|st.items|)).items == st.items
  {
    assert st.items + [v][..0] == st.items;
  }

  /* ---- the array ---- */

  class GrowableVector<T(0)> {
    const zero: T // what calloc and memset leave
    var capacity: nat
    var vsize: nat
    var payload: array<T>

    ghost predicate Valid()
      reads this
    {
      vsize <= capacity == payload.Length
    }

    ghost function Abs(): State<T>
      reads this, payload
      requires Valid()
    {
      State(payload[..vsize], capacity)
    }

    // yang_create.
    constructor (zero: T)
      ensures Valid() && fresh(payload) && Abs() == State([], 5) && this.zero == zero
    {
      this.zero := zero;
      capacity, vsize := 5, 0;
      payload := new T[5](_ => zero);
    }

    // The growth at the start of both inserts.
    method Grow()
      requires Valid()
      modifies this`payload, this`capacity
      ensures Valid() && Abs() == Grown(old(Abs()))
      ensures capacity > vsize && (payload == old(payload) || fresh(payload))
    {
      if vsize >= capacity {
        var tmp := new T[capacity + 5](_ => zero);
        Memory.CopyIn(tmp, 0, payload[..vsize]);
        payload := tmp;
        capacity := capacity + 5;
      }
    }

    // yang_insert of yang_vector_impl; None is a NULL value.
    method InsertCopy(value: Option<T>)
      requires Valid()
      modifies this, payload
      ensures Valid() && (payload == old(payload) || fresh(payload))
      ensures Abs() == Step(old(Abs()), if value.Some? then Insert(value.value) else InsertNull(1, zero))
    {
      Grow();
      payload[vsize] := if value.Some? then value.value else zero;
      vsize := vsize + 1;
    }

    // yang_insert of yang_vector_impl2.
    method InsertPointer(value: Option<T>)
      requires Valid()
      modifies this, payload
      ensures Valid() && (payload == old(payload) || fresh(payload))
      ensures Abs() == Step(old(Abs()), if value.Some? then Insert(value.value) else InsertNull(2, zero))
    {
      Grow();
      if value.Some? {
        payload[vsize] := value.value;
        vsize := vsize + 1;
      }
    }

    // yang_clear.
    method ClearAll()
      requires Valid()
      modifies this`vsize, payload
      ensures Valid() && Abs() == Step(old(Abs()), Clear)
      ensures forall k :: 0 <= k < capacity ==> payload[k] == zero
    {
      for k := 0 to capacity
        invariant forall j :: 0 <= j < k ==> payload[j] == zero
      {
        payload[k] := zero;
      }
      vsize := 0;
    }

    // yang_destroy.
    method DestroyAll()
      requires Valid()
      modifies this
      ensures Valid() && Abs() == Step(old(Abs()), Destroy) && fresh(payload)
    {
      vsize, capacity := 0, 0;
      payload := new T[0](_ => zero);
    }

    // yang_remove.
    method RemoveIndex(index: int)
      requires Valid() && (0 <= index || vsize <= 1)
      modifies this`vsize, payload
      ensures Valid() && Abs() == Step(old(Abs()), Remove(index))
    {
      if vsize == 0 || index >= vsize {
        return;
      }
      if vsize == 1 {
        ClearAll();
        return;
      }
      if vsize != index + 1 {
        Memory.MoveDown(payload, index, index + 1, vsize - index - 1);
      }
      vsize := vsize - 1;
      assert payload[..vsize] == payload[..index] + payload[index..vsize];
    }
  }
}
