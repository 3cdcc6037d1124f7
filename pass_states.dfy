/**
 * The enumeration states of `cvise/passes/abstract.py`: `SubsegmentState`,
 * a frozen value walking every window `[i, i + chunk)` for growing chunk
 * sizes, and `BinaryState`, an object walking halving chunks.
 */
module PassStates {
  import opened Common

  /**
   * `SubsegmentState`. The random start `random.randint(0, n - min_chunk)` is
   * the parameter `rand` reduced into that range, so every start the source
   * can pick is reachable.
   */
  datatype Subsegment = Subsegment(instances: int, chunk: int, maxChunk: int, index: int, start: int)
  {
    /** `end`: the window is `[index, End())`, `chunk` long and inside the instances. */
    function End(): (e: int)
      ensures e - index == chunk
      ensures ValidSubsegment(this) ==> 0 <= index < e <= instances
    {
      index + chunk
    }

    /** The number of window positions for the current chunk size. */
    function Positions(): int
    {
      instances - chunk + 1
    }

    /** The number of advances since the current chunk size began. */
    function Steps(): (k: int)
      requires ValidSubsegment(this)
      ensures 0 <= k < Positions()
    {
      if index >= start then index - start else index - start + Positions()
    }
  }

  /** What every state reachable from `CreateSubsegment` satisfies. */
  predicate ValidSubsegment(s: Subsegment)
  {
    0 < s.chunk <= s.maxChunk && s.chunk <= s.instances
    && 0 <= s.start <= s.instances - s.chunk
    && 0 <= s.index <= s.instances - s.chunk
  }

  /** `SubsegmentState.create`. */
  function CreateSubsegment(instances: int, minChunk: int, maxChunk: int, rand: nat): (r: Option<Subsegment>)
    requires minChunk > 0
    ensures r.None? <==> minChunk > instances || minChunk > maxChunk
    ensures r.Some? ==> ValidSubsegment(r.value) && r.value.chunk == minChunk && r.value.index == r.value.start
                        && r.value.instances == instances && r.value.maxChunk == maxChunk
  {
    if minChunk > instances || minChunk > maxChunk then None
    else
      var start := rand % (instances - minChunk + 1);
      Some(Subsegment(instances, minChunk, maxChunk, start, start))
  }

  /** `SubsegmentState.advance`; `rand` feeds the start of the next chunk size. */
  function AdvanceSubsegment(s: Subsegment, rand: nat): (r: Option<Subsegment>)
    requires s.chunk >= 0
    ensures ValidSubsegment(s) && r.Some? ==> ValidSubsegment(r.value)
  {
    var toStart := s.index + 1 == s.start;
    var toWrapover := s.index + 1 + s.chunk > s.instances;
    if toStart || (toWrapover && s.start == 0) then
      CreateSubsegment(s.instances, s.chunk + 1, s.maxChunk, rand)
    else
      Some(Subsegment(s.instances, s.chunk, s.maxChunk, if toWrapover then 0 else s.index + 1, s.start))
  }

  /** `SubsegmentState.advance_on_success` after the instance count became `instances`. */
  function SubsegmentOnSuccess(s: Subsegment, instances: int, rand: nat): (r: Option<Subsegment>)
    requires s.chunk >= 0
    ensures s.chunk > instances ==> r.None?
    ensures ValidSubsegment(s) && r.Some? ==> ValidSubsegment(r.value) && r.value.instances == instances
  {
    if s.chunk > instances then None
    else
      var wrapover := s.index + s.chunk > instances;
      if wrapover && (s.index < s.start || s.start == 0) then
        CreateSubsegment(instances, s.chunk + 1, s.maxChunk, rand)
      else
        Some(Subsegment(instances, s.chunk, s.maxChunk, if wrapover then 0 else s.index,
                        if s.start + s.chunk > instances then 0 else s.start))
  }

  /** The position after `i` among `m` positions, wrapping to 0 after the last. */
  function NextPosition(i: int, m: int): int
  {
    if i + 1 < m then i + 1 else 0
  }

  /** The position `k` steps after `start` among `m` positions. */
  function PositionAfter(start: int, k: int, m: int): int
  {
    if start + k < m then start + k else start + k - m
  }

  /**
   * Within one chunk size the walk goes one position to the right, wrapping
   * to 0 after the last position; it leaves the chunk size exactly when
   * every position has been visited, and the choice of `rand` matters only then.
   */
  lemma AdvanceWithinChunk(s: Subsegment, rand: nat)
    requires ValidSubsegment(s)
    ensures var r := AdvanceSubsegment(s, rand);
      if s.Steps() < s.Positions() - 1 then
        r == Some(s.(index := NextPosition(s.index, s.Positions()))) && r.value.Steps() == s.Steps() + 1
      else
        r.None? || (r.value.chunk == s.chunk + 1 && r.value.index == r.value.start)
  {
  }

  /** `k` advances at the current chunk size, as long as they stay within it. */
  function Walk(s: Subsegment, k: nat): (r: Subsegment)
    requires ValidSubsegment(s) && s.Steps() + k < s.Positions()
    ensures ValidSubsegment(r) && r.chunk == s.chunk && r.start == s.start && r.instances == s.instances
    ensures r.Steps() == s.Steps() + k
    decreases k
  {
    if k == 0 then s
    else
      AdvanceWithinChunk(s, 0);
      Walk(AdvanceSubsegment(s, 0).value, k - 1)
  }

  /**
   * From a freshly created state the `k`-th window starts at
   * `(start + k) mod positions`; after the last position the next advance
   * moves to the next chunk size or ends.
   */
  lemma {:induction false} WalkVisits(s: Subsegment, k: nat, rand: nat)
    requires ValidSubsegment(s) && s.index == s.start && k < s.Positions()
    ensures Walk(s, k).index == PositionAfter(s.start, k, s.Positions())
    ensures k == s.Positions() - 1 ==>
      var r := AdvanceSubsegment(Walk(s, k), rand);
      r.None? || (r.value.chunk == s.chunk + 1 && r.value.index == r.value.start)
  {
    var w := Walk(s, k);
    assert w.Steps() == k;
    if k == s.Positions() - 1 {
      AdvanceWithinChunk(w, rand);
    }
  }

  /** Every window position is visited by exactly one of the first `positions` steps. */
  lemma VisitsEachOnce(s: Subsegment, i: int)
    requires ValidSubsegment(s) && s.index == s.start && 0 <= i < s.Positions()
    ensures var k := if i >= s.start then i - s.start else i - s.start + s.Positions();
      Walk(s, k).index == i
      && forall j: nat :: j < s.Positions() && Walk(s, j).index == i ==> j == k
  {
    var m := s.Positions();
    var k := if i >= s.start then i - s.start else i - s.start + m;
    WalkVisits(s, k, 0);
    forall j: nat | j < m && Walk(s, j).index == i
      ensures j == k
    {
      WalkVisits(s, j, 0);
    }
  }

  /** The value of a `BinaryState`: the three fields its equality compares. */
  datatype Binary = Binary(instances: nat, chunk: nat, index: nat)
  {
    /** `end`: the window end, clipped to the instance count. */
    function ClippedEnd(): (e: int)
      ensures e <= index + chunk && e <= instances
      ensures index <= instances ==> index <= e
    {
      if index + chunk < instances then index + chunk else instances
    }

    /** `real_chunk`: the size of the window actually covered. */
    function RealChunk(): (n: int)
      ensures n <= chunk
      ensures ValidBinary(this) ==> 0 < n && index + n <= instances
    {
      ClippedEnd() - index
    }
  }

  /** What every state reachable from `CreateBinary` satisfies. */
  predicate ValidBinary(s: Binary)
  {
    s.chunk >= 1 && s.index < s.instances
  }

  /** `BinaryState.create`. */
  function CreateBinary(instances: nat): (r: Option<Binary>)
    ensures r.None? <==> instances == 0
    ensures r.Some? ==> ValidBinary(r.value) && r.value.index == 0 && r.value.instances == instances
                        && r.value.chunk == instances
  {
    if instances == 0 then None else Some(Binary(instances, instances, 0))
  }

  /** `BinaryState.advance`, on the copy it makes. */
  function AdvanceBinary(s: Binary): (r: Option<Binary>)
    ensures r.None? <==> s.index + s.chunk >= s.instances && s.chunk < 2
    ensures r.Some? ==> r.value.instances == s.instances
    ensures s.index + s.chunk < s.instances ==> r == Some(s.(index := s.index + s.chunk))
    ensures r.Some? && s.index + s.chunk >= s.instances ==>
              r.value.index == 0 && 1 <= r.value.chunk && 2 * r.value.chunk <= s.chunk
    ensures ValidBinary(s) && r.Some? ==> ValidBinary(r.value)
  {
    var index := s.index + s.chunk;
    if index >= s.instances then
      var chunk := s.chunk / 2;
      if chunk < 1 then None else Some(Binary(s.instances, chunk, 0))
    else
      Some(Binary(s.instances, s.chunk, index))
  }

  /** `BinaryState.advance_on_success` after the instance count became `instances`. */
  function BinaryOnSuccess(s: Binary, instances: nat): (r: Option<Binary>)
    ensures instances == 0 ==> r.None?
    ensures 0 < instances && s.index < instances ==> r == Some(s.(instances := instances))
    ensures r.Some? ==> r.value.instances == instances
    ensures s.chunk >= 1 && r.Some? ==> ValidBinary(r.value)
  {
    if instances == 0 then None
    else
      var t := s.(instances := instances);
      if t.index >= t.instances then AdvanceBinary(t) else Some(t)
  }

  /** What is left to walk: the chunk size, then the distance to the end. */
  function BinaryRemaining(s: Binary): (nat, nat)
  {
    (s.chunk, if s.index < s.instances then s.instances - s.index else 0)
  }

  /** Every advance shrinks the chunk size, or keeps it and moves towards the end. */
  lemma BinaryAdvanceTerminates(s: Binary)
    requires ValidBinary(s)
    ensures var r := AdvanceBinary(s);
      r.None? || r.value.chunk < s.chunk
      || (r.value.chunk == s.chunk && BinaryRemaining(r.value).1 < BinaryRemaining(s).1)
  {
  }

  /**
   * The windows of one chunk size tile the instances: after `k` advances
   * that keep the chunk size, the window starts at `k * chunk`.
   */
  lemma {:induction false} BinaryTiles(s: Binary, k: nat)
    requires ValidBinary(s) && s.index == 0 && k * s.chunk < s.instances
    ensures BinaryWalk(s, k) == Some(s.(index := k * s.chunk))
  {
    if k > 0 {
      BinaryTiles(s, k - 1);
      assert (k - 1) * s.chunk + s.chunk == k * s.chunk;
    }
  }

  /** `k` advances in a row, ending early if the walk ends. */
  function BinaryWalk(s: Binary, k: nat): Option<Binary>
  {
    if k == 0 then Some(s)
    else
      var p := BinaryWalk(s, k - 1);
      if p.None? then None else AdvanceBinary(p.value)
  }

  /**
   * `BinaryState`: the object the passes keep. `advance` returns a new object
   * and leaves this one alone; `advance_on_success` updates `instances` in
   * place and returns this object or an advanced copy.
   */
  class BinaryState {
    var instances: nat
    var chunk: nat
    var index: nat

    function Value(): Binary
      reads this
    {
      Binary(instances, chunk, index)
    }

    constructor (instances: nat, chunk: nat, index: nat)
      ensures Value() == Binary(instances, chunk, index)
    {
      this.instances := instances;
      this.chunk := chunk;
      this.index := index;
    }

    static method Create(instances: nat) returns (s: BinaryState?)
      ensures s == null <==> CreateBinary(instances).None?
      ensures s != null ==> fresh(s) && CreateBinary(instances) == Some(s.Value())
    {
      if instances == 0 {
        return null;
      }
      s := new BinaryState(instances, instances, 0);
    }

    method Copy() returns (c: BinaryState)
      ensures fresh(c) && c.Value() == Value()
    {
      c := new BinaryState(instances, chunk, index);
    }

    method Advance() returns (r: BinaryState?)
      ensures r == null <==> AdvanceBinary(Value()).None?
      ensures r != null ==> fresh(r) && AdvanceBinary(Value()) == Some(r.Value())
    {
      var c := Copy();
      c.index := c.index + c.chunk;
      if c.index >= c.instances {
        c.chunk := c.chunk / 2;
        if c.chunk < 1 {
          return null;
        }
        c.index := 0;
      }
      r := c;
    }

    method AdvanceOnSuccess(instances: nat) returns (r: BinaryState?)
      modifies this
      ensures instances == 0 ==> r == null && Value() == old(Value())
      ensures instances != 0 ==> Value() == old(Value()).(instances := instances)
      ensures r == null <==> BinaryOnSuccess(old(Value()), instances).None?
      ensures r != null ==> BinaryOnSuccess(old(Value()), instances) == Some(r.Value())
      ensures r != null && r != this ==> fresh(r)
    {
      if instances == 0 {
        return null;
      }
      this.instances := instances;
      if index >= this.instances {
        r := Advance();
      } else {
        r := this;
      }
    }
  }
}
