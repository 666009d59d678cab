/**
 * The edit log (`CTEditHistory`): an ordered list of history records, a cursor
 * `position` counting the records that are currently applied, and an optional
 * bound on the list's length (a negative bound means unbounded).
 *
 * The log never looks inside its records, so its behaviour is first stated on
 * values, generically, as `Log<T>`; the class `EditHistory` keeps the same three
 * fields and each of its methods is proved to do what the matching function says.
 */
module History {
  import opened Wrappers
  import opened HistoryItems

  datatype Log<T> = Log(items: seq<T>, position: int, maxSize: int)
  {
    /** The cursor lies within the list, and a set bound is respected. */
    predicate Valid()
    {
      0 <= position <= |items| && (maxSize >= 0 ==> |items| <= maxSize)
    }
  }

  function Min(a: int, b: int): int { if a < b then a else b }
  function Max(a: int, b: int): int { if a < b then b else a }

  /** `clear`: no records, cursor at 0; the bound is kept. */
  function Cleared<T>(l: Log<T>): (r: Log<T>)
    ensures r.Valid() && r.items == [] && r.position == 0 && r.maxSize == l.maxSize
  {
    Log([], 0, l.maxSize)
  }

  /**
   * `trimHistory` under a bound that is not negative: the oldest records are
   * evicted until the bound holds, the cursor drops by the number evicted and
   * is floored at 0.
   */
  function Trim<T>(l: Log<T>): (r: Log<T>)
    requires l.maxSize >= 0
    ensures r.maxSize == l.maxSize
    ensures |r.items| == Min(|l.items|, l.maxSize)
    ensures r.position == Max(0, l.position - (|l.items| - |r.items|))
    ensures l.position <= |l.items| ==> r.Valid()
  {
    var evicted := if |l.items| > l.maxSize then |l.items| - l.maxSize else 0;
    Log(l.items[evicted..], if l.position - evicted < 0 then 0 else l.position - evicted, l.maxSize)
  }

  /**
   * `add`: the redo tail (every record at or after the cursor) is dropped, the
   * new record is appended and becomes current, and a set bound is applied.
   */
  function Added<T>(l: Log<T>, x: T): (r: Log<T>)
    requires 0 <= l.position
    ensures 0 <= r.position && r.maxSize == l.maxSize
    ensures l.Valid() ==> r.Valid() && r.position == |r.items|
  {
    var kept := if l.position < |l.items| then l.items[..l.position] else l.items;
    var grown := Log(kept + [x], l.position + 1, l.maxSize);
    if l.maxSize >= 0 then Trim(grown) else grown
  }

  /** `setMaxHistorySize`: record the bound, and apply it when it is not negative. */
  function SetMaxSize<T>(l: Log<T>, n: int): (r: Log<T>)
    ensures r.maxSize == n
    ensures n < 0 ==> r.items == l.items && r.position == l.position
    ensures n >= 0 ==> |r.items| == Min(|l.items|, n)
    ensures n >= 0 ==> r.items == l.items[|l.items| - |r.items|..]
    ensures n >= 0 ==> r.position == Max(0, l.position - (|l.items| - |r.items|))
    ensures l.Valid() ==> r.Valid()
  {
    var l' := l.(maxSize := n);
    if n >= 0 then Trim(l') else l'
  }

  /** `getCurrent`: the record just before the cursor, if any. */
  function Current<T>(l: Log<T>): (r: Option<T>)
    requires 0 <= l.position <= |l.items|
    ensures r.None? <==> l.position == 0
    ensures r.Some? ==> r.value == l.items[l.position - 1]
  {
    if l.position == 0 then None else Some(l.items[l.position - 1])
  }

  /** `getPrevious`: step the cursor back over one record and return that record. */
  function StepBack<T>(l: Log<T>): (r: (Option<T>, Log<T>))
    requires 0 <= l.position <= |l.items|
    ensures r.1.items == l.items && r.1.maxSize == l.maxSize
    ensures l.position == 0 ==> r.0.None? && r.1 == l
    ensures l.position > 0 ==> r.1.position == l.position - 1 && r.0 == Some(l.items[r.1.position])
  {
    if l.position == 0 then (None, l)
    else (Some(l.items[l.position - 1]), l.(position := l.position - 1))
  }

  /** `getNext`: return the record at the cursor and step the cursor over it. */
  function StepForward<T>(l: Log<T>): (r: (Option<T>, Log<T>))
    requires 0 <= l.position
    ensures r.1.items == l.items && r.1.maxSize == l.maxSize
    ensures l.position >= |l.items| ==> r.0.None? && r.1 == l
    ensures l.position < |l.items| ==> r.0 == Some(l.items[l.position]) && r.1.position == l.position + 1
  {
    if l.position >= |l.items| then (None, l)
    else (Some(l.items[l.position]), l.(position := l.position + 1))
  }

  /** The records that survive a trim are the newest ones, in order. */
  lemma TrimKeepsNewest<T>(l: Log<T>)
    requires l.maxSize >= 0
    ensures Trim(l).items == l.items[|l.items| - |Trim(l).items|..]
  {
  }

  /**
   * After `add` on a valid log, the new record is the newest one and the records
   * before it are the newest of those that were applied: the redo tail is gone.
   */
  lemma AddedAppends<T>(l: Log<T>, x: T)
    requires l.Valid() && l.maxSize != 0
    ensures var r := Added(l, x);
      && r.items != [] && |r.items| <= l.position + 1 && r.items[|r.items| - 1] == x
      && r.items[..|r.items| - 1] == l.items[l.position - (|r.items| - 1)..l.position]
  {
    AddedShape(l, x);
  }

  /** Every operation of the log keeps it valid. */
  lemma OperationsKeepValid<T>(l: Log<T>, x: T, n: int)
    requires l.Valid()
    ensures Cleared(l).Valid() && Added(l, x).Valid() && SetMaxSize(l, n).Valid()
    ensures StepBack(l).1.Valid() && StepForward(l).1.Valid()
  {
  }

  /** Without a bound, `add` keeps exactly the applied records and appends the new one. */
  lemma AddUnbounded<T>(l: Log<T>, x: T)
    requires 0 <= l.position <= |l.items| && l.maxSize < 0
    ensures Added(l, x) == Log(l.items[..l.position] + [x], l.position + 1, l.maxSize)
  {
  }

  /** Stepping back and then forward returns the same record and restores the log. */
  lemma BackThenForward<T>(l: Log<T>)
    requires l.Valid() && l.position > 0
    ensures StepBack(l).0.Some?
    ensures StepForward(StepBack(l).1) == (StepBack(l).0, l)
  {
  }

  /** Stepping forward and then back returns the same record and restores the log. */
  lemma ForwardThenBack<T>(l: Log<T>)
    requires l.Valid() && l.position < |l.items|
    ensures StepForward(l).0.Some?
    ensures StepBack(StepForward(l).1) == (StepForward(l).0, l)
  {
  }

  /** Branch overwrite: with [A, B, C] and one record applied, adding D gives [A, D]. */
  lemma BranchOverwrite<T>(a: T, b: T, c: T, d: T)
    ensures Added(Log([a, b, c], 1, -1), d) == Log([a, d], 2, -1)
  {
    assert [a, b, c][..1] + [d] == [a, d];
  }

  /** A bound of 2 on five records keeps the two newest and lowers the cursor by three, floored at 0. */
  lemma BoundOfTwo<T>(s: seq<T>, position: int)
    requires |s| == 5 && 0 <= position <= 5
    ensures SetMaxSize(Log(s, position, -1), 2) == Log(s[3..], Max(0, position - 3), 2)
  {
  }

  /** The contents of each record of `items`, in order. */
  function Snapshot(items: seq<Item>): (r: seq<Entry>)
    reads items
    ensures |r| == |items|
  {
    seq(|items|, i reads items requires 0 <= i < |items| => items[i].Value())
  }

  /** The log of records seen as a log of their contents. */
  function Contents(l: Log<Item>): (r: Log<Entry>)
    reads l.items
    ensures r.position == l.position && r.maxSize == l.maxSize && |r.items| == |l.items|
  {
    Log(Snapshot(l.items), l.position, l.maxSize)
  }

  lemma SnapshotSlice(items: seq<Item>, from: nat, to: nat)
    requires from <= to <= |items|
    ensures Snapshot(items[from..to]) == Snapshot(items)[from..to]
  {
  }

  lemma SnapshotAppend(items: seq<Item>, x: Item)
    ensures Snapshot(items + [x]) == Snapshot(items) + [x.Value()]
  {
  }

  /** The number of records `add` evicts when the list has grown to `length`. */
  function Evictions(length: int, maxSize: int): int
  {
    if maxSize >= 0 && length > maxSize then length - maxSize else 0
  }

  /** `add` depends on the records only through their order: a closed form. */
  lemma AddedShape<T>(l: Log<T>, x: T)
    requires 0 <= l.position
    ensures var k := Min(l.position, |l.items|);
      var e := Evictions(k + 1, l.maxSize);
      && 0 <= e <= k + 1
      && Added(l, x).items == (l.items[..k] + [x])[e..]
      && Added(l, x).position == (if l.maxSize >= 0 then Max(0, l.position + 1 - e) else l.position + 1)
  {
  }

  /** The record `add` appends can be swapped afterwards: `add` treats the new record as opaque. */
  lemma AddedThenReplaced<T>(l: Log<T>, x: T, y: T)
    requires l.Valid() && l.maxSize != 0
    ensures var a := Added(l, x);
      |a.items| > 0 && a.(items := a.items[|a.items| - 1 := y]) == Added(l, y)
  {
    AddedShape(l, x);
    AddedShape(l, y);
    var k := Min(l.position, |l.items|);
    var e := Evictions(k + 1, l.maxSize);
    assert e <= k;
    var a := Added(l, x);
    assert a.items[|a.items| - 1 := y] == (l.items[..k] + [y])[e..];
  }

  /** `add` in two steps: cut the redo tail, then append and apply the bound. */
  lemma AddedByParts<T>(l: Log<T>, x: T, kept: seq<T>)
    requires 0 <= l.position
    requires Min(l.position, |l.items|) <= |kept| <= |l.items| && |kept| <= l.position
    requires kept == l.items[..|kept|]
    ensures l.maxSize >= 0 ==> Added(l, x) == Trim(Log(kept + [x], l.position + 1, l.maxSize))
    ensures l.maxSize < 0 ==> Added(l, x) == Log(kept + [x], l.position + 1, l.maxSize)
  {
    assert kept == if l.position < |l.items| then l.items[..l.position] else l.items;
  }

  /** Adding a record and then reading the contents is adding the record's contents. */
  lemma ContentsOfAdd(l: Log<Item>, x: Item)
    requires 0 <= l.position
    ensures Contents(Added(l, x)) == Added(Contents(l), x.Value())
  {
    var c := Contents(l);
    var k := Min(l.position, |l.items|);
    var e := Evictions(k + 1, l.maxSize);
    var grown := l.items[..k] + [x];
    var grownC := c.items[..k] + [x.Value()];
    assert Added(l, x).items == grown[e..] && Added(c, x.Value()).items == grownC[e..]
      && Added(l, x).position == Added(c, x.Value()).position by {
      AddedShape(l, x);
      AddedShape(c, x.Value());
    }
    assert Snapshot(grown[e..]) == grownC[e..] by {
      SnapshotSlice(l.items, 0, k);
      SnapshotAppend(l.items[..k], x);
      SnapshotSlice(grown, e, k + 1);
    }
    var r := Added(l, x);
    assert Contents(r) == Log(Snapshot(r.items), r.position, r.maxSize);
  }

  /** The contents of a record that may be absent. */
  function ValueOf(x: Option<Item>): Option<Entry>
    reads if x.Some? then {x.value} else {}
  {
    if x.Some? then Some(x.value.Value()) else None
  }

  /** Stepping back over records and then reading them is stepping back over their contents. */
  lemma ContentsOfStepBack(l: Log<Item>)
    requires 0 <= l.position <= |l.items|
    ensures StepBack(Contents(l)) == (ValueOf(StepBack(l).0), Contents(StepBack(l).1))
  {
  }

  /** Stepping forward over records and then reading them is stepping forward over their contents. */
  lemma ContentsOfStepForward(l: Log<Item>)
    requires 0 <= l.position
    ensures StepForward(Contents(l)) == (ValueOf(StepForward(l).0), Contents(StepForward(l).1))
  {
  }

  /** No record appears twice. */
  predicate Distinct(items: seq<Item>)
  {
    forall i, j :: 0 <= i < j < |items| ==> items[i] != items[j]
  }

  /** `add` with a record not yet in the list keeps the records distinct. */
  lemma AddedKeepsDistinct(l: Log<Item>, x: Item)
    requires 0 <= l.position && Distinct(l.items) && x !in l.items
    ensures Distinct(Added(l, x).items)
  {
    AddedShape(l, x);
    var k := Min(l.position, |l.items|);
    var grown := l.items[..k] + [x];
    assert Distinct(grown) by {
      forall i, j | 0 <= i < j < |grown| ensures grown[i] != grown[j] {
        if j < k {
          assert grown[i] == l.items[i] && grown[j] == l.items[j];
        } else {
          assert grown[i] == l.items[i] && grown[i] in l.items;
        }
      }
    }
  }

  /** Setting the bound keeps the records distinct. */
  lemma SetMaxSizeKeepsDistinct(l: Log<Item>, n: int)
    requires Distinct(l.items)
    ensures Distinct(SetMaxSize(l, n).items)
  {
    if n >= 0 {
      TrimKeepsNewest(l.(maxSize := n));
    }
  }

  function AsOption(item: Item?): Option<Item>
  {
    if item == null then None else Some(item)
  }

  /** The edit log object. */
  class EditHistory {
    var position: int
    var maxHistorySize: int
    var history: seq<Item>

    constructor ()
      ensures Model() == Log([], 0, -1)
    {
      position := 0;
      maxHistorySize := -1;
      history := [];
    }

    /** The log's three fields as a value. */
    function Model(): Log<Item>
      reads this
    {
      Log(history, position, maxHistorySize)
    }

    /** The log with each record replaced by its current contents. */
    function View(): Log<Entry>
      reads this, history
    {
      Contents(Model())
    }

    method Clear()
      modifies this
      ensures Model() == Cleared(old(Model()))
    {
      position := 0;
      history := [];
    }

    method Add(item: Item)
      requires 0 <= position
      modifies this
      ensures Model() == Added(old(Model()), item)
    {
      while |history| > position
        invariant position == old(position) && maxHistorySize == old(maxHistorySize)
        invariant Min(position, |old(history)|) <= |history| <= |old(history)|
        invariant history == old(history)[..|history|]
      {
        history := history[..|history| - 1];
      }
      AddedByParts(old(Model()), item, history);
      history := history + [item];
      position := position + 1;
      if maxHistorySize >= 0 {
        ghost var grown := Model();
        var completed := TrimHistory();
        assert Model() == Trim(grown);
      }
    }

    method SetMaxHistorySize(maxHistorySize: int)
      modifies this
      ensures Model() == SetMaxSize(old(Model()), maxHistorySize)
    {
      this.maxHistorySize := maxHistorySize;
      if this.maxHistorySize >= 0 {
        var completed := TrimHistory();
      }
    }

    /**
     * Evicts the oldest records while the list is longer than the bound. Under a
     * negative bound the list empties and the next eviction fails (Java's
     * `removeFirst` on an empty list throws): `completed` is false then, and the
     * cursor has not been floored.
     */
    method TrimHistory() returns (completed: bool)
      modifies this
      ensures maxHistorySize == old(maxHistorySize)
      ensures completed <==> old(maxHistorySize) >= 0
      ensures completed ==> Model() == Trim(old(Model()))
      ensures !completed ==> history == [] && position == old(position) - |old(history)|
    {
      while |history| > maxHistorySize
        invariant maxHistorySize == old(maxHistorySize)
        invariant history == old(history)[|old(history)| - |history|..]
        invariant position == old(position) - (|old(history)| - |history|)
        invariant maxHistorySize >= 0 ==> |history| >= Min(|old(history)|, maxHistorySize)
      {
        if history == [] {
          return false;
        }
        history := history[1..];
        position := position - 1;
      }
      if position < 0 {
        position := 0;
      }
      return true;
    }

    method GetCurrent() returns (item: Item?)
      requires 0 <= position <= |history|
      ensures AsOption(item) == Current(Model())
    {
      if position == 0 {
        return null;
      }
      return history[position - 1];
    }

    method GetPrevious() returns (item: Item?)
      requires 0 <= position <= |history|
      modifies this
      ensures (AsOption(item), Model()) == StepBack(old(Model()))
    {
      if position == 0 {
        return null;
      }
      position := position - 1;
      return history[position];
    }

    method GetNext() returns (item: Item?)
      requires 0 <= position
      modifies this
      ensures (AsOption(item), Model()) == StepForward(old(Model()))
    {
      if position >= |history| {
        return null;
      }
      item := history[position];
      position := position + 1;
    }
  }
}
