/** The double-buffered table of active users: puts go to the active table while a freezer switches
    the tables, copies the one that was active and clears it. */
module ActivityWindow {
  import opened ByteStrings

  type Key = nat

  datatype UserCom = UserCom(cluster: string, user: string, com: Bytes, comTs: nat)

  type Table = map<Key, UserCom>

  /** The values of a table, each once, in the order of the given keys. */
  ghost predicate Lists(t: Table, keys: seq<Key>, values: seq<UserCom>)
  {
    && |keys| == |values|
    && (forall i :: 0 <= i < |keys| ==> keys[i] in t && values[i] == t[keys[i]])
    && (forall i, j :: 0 <= i < j < |keys| ==> keys[i] != keys[j])
    && (forall k :: k in t ==> k in keys)
  }

  // ---------- as the code runs it, undisturbed ----------

  class SwitchableMaps {
    var table0: Table
    var table1: Table
    var activeIdx: nat

    ghost predicate Valid()
      reads this
    {
      activeIdx < 2
    }

    ghost function Active(): Table
      reads this
    {
      if activeIdx == 0 then table0 else table1
    }

    ghost function Inactive(): Table
      reads this
    {
      if activeIdx == 0 then table1 else table0
    }

    constructor ()
      ensures Valid() && Active() == map[] && Inactive() == map[]
    {
      table0, table1, activeIdx := map[], map[], 0;
    }

    method Put(key: Key, value: UserCom)
      requires Valid()
      modifies this
      ensures Valid() && activeIdx == old(activeIdx)
      ensures Active() == old(Active())[key := value] && Inactive() == old(Inactive())
    {
      if activeIdx == 0 {
        table0 := table0[key := value];
      } else {
        table1 := table1[key := value];
      }
    }

    /** `switch`, from the load of the index on: if the index is still the one that was loaded, the tables
        trade places and the one that was active is handed out; otherwise another task has switched in
        between, the exchange fails and nothing happens. */
    method Switch(loaded: nat) returns (was: Option<Table>)
      requires Valid()
      modifies this
      ensures Valid()
      ensures if loaded == old(activeIdx)
              then was == Some(old(Active())) && Active() == old(Inactive()) && Inactive() == old(Active())
              else was == None && activeIdx == old(activeIdx) && table0 == old(table0) && table1 == old(table1)
    {
      var next := (loaded + 1) % 2;
      if activeIdx != loaded {
        return None;
      }
      activeIdx := next;
      was := Some(if loaded == 0 then table0 else table1);
    }

    method CleanInactive()
      requires Valid()
      modifies this
      ensures Valid() && Active() == old(Active()) && Inactive() == map[]
    {
      if (activeIdx + 1) % 2 == 0 {
        table0 := map[];
      } else {
        table1 := map[];
      }
    }

    /** `freeze`, from the load of the index on: returns every entry of the active table once, in whatever
        order the table yields them, and leaves the other table active and this one empty; or, if the
        switch fails, returns nothing and changes nothing. */
    method Freeze(loaded: nat) returns (frozen: seq<UserCom>, ghost keys: seq<Key>)
      requires Valid()
      modifies this
      ensures Valid()
      ensures if loaded == old(activeIdx)
              then Lists(old(Active()), keys, frozen) && Active() == old(Inactive()) && Inactive() == map[]
              else frozen == [] && activeIdx == old(activeIdx) && table0 == old(table0) && table1 == old(table1)
    {
      var was := Switch(loaded);
      frozen, keys := [], [];
      if was.None? {
        return;
      }
      var t := was.value;
      var left := t.Keys;
      while left != {}
        invariant Inactive() == t && Active() == old(Inactive()) && Valid()
        invariant left <= t.Keys && Lists(map k | k in t && k !in left :: t[k], keys, frozen)
        decreases |left|
      {
        var k :| k in left;
        frozen, keys := frozen + [t[k]], keys + [k];
        left := left - {k};
      }
      assert (map k | k in t && k !in left :: t[k]) == t;
      CleanInactive();
    }
  }

  // ---------- interleaved with puts ----------

  type Task = nat

  /** The steps of the tasks that put, any number of them, and of the one that freezes. The table is sharded:
      its iterator goes from one shard to the next and does not come back, and clearing it goes from one
      shard to the next as well. `Pass` is the iterator going past the place of a key that is not in the table,
      `Wipe` the clearing of the place of a key, and `Clean` the end of the clearing. */
  datatype Step =
    | PutLoad(task: Task, key: Key, value: UserCom)
    | PutInsert(task: Task)
    | Cas
    | Visit(key: Key)
    | Pass(key: Key)
    | Exhaust
    | Wipe(key: Key)
    | Clean

  /** A put between loading the index and inserting. */
  datatype Put = Put(idx: nat, key: Key, value: UserCom)

  /** A freeze between the switch and the end of the clearing: what it has copied so far and where its iterator
      has passed without finding anything, or what it has copied in all and which places it has cleared. */
  datatype Freezer =
    | Idle
    | Iterating(keys: seq<Key>, values: seq<UserCom>, passed: set<Key>)
    | Copied(keys: seq<Key>, values: seq<UserCom>, wiped: set<Key>)

  datatype State = State(
    tables: seq<Table>, active: nat, puts: map<Task, Put>, freezer: Freezer,
    frozen: seq<(seq<Key>, seq<UserCom>)>)

  predicate Shaped(s: State)
  {
    |s.tables| == 2 && s.active < 2 && forall t :: t in s.puts ==> s.puts[t].idx < 2
  }

  const START := State([map[], map[]], 0, map[], Idle, [])

  /** The entries of a table at the given keys. */
  function At(t: Table, keys: set<Key>): (r: Table)
    ensures forall k :: k in r <==> k in t && k in keys
    ensures forall k :: k in r ==> r[k] == t[k]
  {
    map k | k in t && k in keys :: t[k]
  }

  /** The next state, if the step can be made. The iterator of a freeze yields the keys of the table in any
      order, except for those whose place it has passed, and is exhausted when it has yielded all others. What is
      put at a place that has been cleared stays. */
  function Apply(s: State, e: Step): (r: Option<State>)
    requires Shaped(s)
    ensures r.Some? ==> Shaped(r.value)
  {
    var other := 1 - s.active;
    match e
    case PutLoad(task, k, v) => if task in s.puts then None else Some(s.(puts := s.puts[task := Put(s.active, k, v)]))
    case PutInsert(task) =>
      if task !in s.puts then None
      else
        var put := s.puts[task];
        var t: Table := s.tables[put.idx];
        Some(s.(tables := s.tables[put.idx := t[put.key := put.value]], puts := s.puts - {task}))
    case Cas => if s.freezer.Idle? then Some(s.(active := other, freezer := Iterating([], [], {}))) else None
    case Visit(k) =>
      if !s.freezer.Iterating? || k in s.freezer.keys || k in s.freezer.passed || k !in s.tables[other] then None
      else Some(s.(freezer := Iterating(s.freezer.keys + [k], s.freezer.values + [s.tables[other][k]], s.freezer.passed)))
    case Pass(k) =>
      if !s.freezer.Iterating? || k in s.tables[other] then None
      else Some(s.(freezer := Iterating(s.freezer.keys, s.freezer.values, s.freezer.passed + {k})))
    case Exhaust =>
      if !s.freezer.Iterating? || (exists k :: k in s.tables[other].Keys && k !in s.freezer.keys && k !in s.freezer.passed)
      then None
      else Some(s.(freezer := Copied(s.freezer.keys, s.freezer.values, {})))
    case Wipe(k) =>
      if !s.freezer.Copied? || k in s.freezer.wiped then None
      else Some(s.(tables := s.tables[other := s.tables[other] - {k}],
                   freezer := Copied(s.freezer.keys, s.freezer.values, s.freezer.wiped + {k})))
    case Clean =>
      if !s.freezer.Copied? then None
      else Some(s.(tables := s.tables[other := At(s.tables[other], s.freezer.wiped)], freezer := Idle,
                   frozen := s.frozen + [(s.freezer.keys, s.freezer.values)]))
  }

  function Run(es: seq<Step>): (r: Option<State>)
    ensures r.Some? ==> Shaped(r.value)
  {
    if es == [] then Some(START) else
    match Run(es[..|es| - 1])
    case Some(s) => Apply(s, es[|es| - 1])
    case None => None
  }

  // ---------- what should be frozen ----------

  /** What becomes of a put, by the state in which it inserts. It loaded the index a while ago; if that is
      no longer the active one, it inserts into the other table: ahead of the switch that makes it the active
      one again, early enough for the copy that is being made of it, or too late for that copy, because its
      key has been copied, the iterator has passed its place or has come to its end. */
  datatype Fate = Fresh | Ahead | Early | Late

  function FateOf(s: State, task: Task): Fate
    requires Shaped(s) && task in s.puts
  {
    if s.puts[task].idx == s.active then Fresh
    else match s.freezer
         case Idle => Ahead
         case Iterating(keys, _, passed) => if s.puts[task].key in keys || s.puts[task].key in passed then Late else Early
         case Copied(_, _, wiped) => if s.puts[task].key in wiped then Ahead else Late
  }

  /** The windows of a run: those closed by a switch, the current one, and what has already been put into
      the next one. In each of them the last put of a key wins. */
  datatype Windows = Windows(closed: seq<Table>, current: Table, next: Table)

  function With(t: Table, put: Put): Table
  {
    t[put.key := put.value]
  }

  function Record(w: Windows, fate: Fate, put: Put): Windows
  {
    match fate
    case Fresh => w.(current := With(w.current, put))
    case Ahead => w.(next := With(w.next, put))
    case Early =>
      if w.closed == [] then w
      else w.(closed := w.closed[|w.closed| - 1 := With(w.closed[|w.closed| - 1], put)])
    case Late => w
  }

  /** The put that the step at a position of a run completes, and its fate. */
  function PutAt(es: seq<Step>, j: nat): (r: Option<(Put, Fate)>)
    requires j < |es|
  {
    match Run(es[..j])
    case Some(s) =>
      if es[j].PutInsert? && es[j].task in s.puts then Some((s.puts[es[j].task], FateOf(s, es[j].task))) else None
    case None => None
  }

  function WindowsOf(es: seq<Step>): Windows
  {
    if es == [] then Windows([], map[], map[]) else
    var w := WindowsOf(es[..|es| - 1]);
    match es[|es| - 1]
    case PutInsert(_) =>
      var put := PutAt(es, |es| - 1);
      if put.None? then w else Record(w, put.value.1, put.value.0)
    case Cas => Windows(w.closed + [w.current], w.next, map[])
    case _ => w
  }

  /** Where everything is: the active table holds the current window; the other one holds what is ahead or,
      during a freeze, the last closed window, except for what came too late; every earlier window has
      been returned by exactly one freeze, entry by entry. */
  ghost predicate Tallies(s: State, w: Windows)
    requires Shaped(s)
  {
    && s.tables[s.active] == w.current
    && Returned(s.frozen, w.closed)
    && match s.freezer
       case Idle => |w.closed| == |s.frozen| && s.tables[1 - s.active] == w.next
       case Iterating(keys, values, passed) =>
         |w.closed| == |s.frozen| + 1 && w.next == map[]
         && Copying(s.tables[1 - s.active], w.closed[|s.frozen|], keys, values, passed)
       case Copied(keys, values, wiped) =>
         |w.closed| == |s.frozen| + 1 && w.next == At(s.tables[1 - s.active], wiped)
         && Lists(w.closed[|s.frozen|], keys, values)
  }

  /** Each freeze so far has returned exactly the entries of its window. */
  ghost predicate Returned(frozen: seq<(seq<Key>, seq<UserCom>)>, closed: seq<Table>)
  {
    |frozen| <= |closed| && forall i :: 0 <= i < |frozen| ==> Lists(closed[i], frozen[i].0, frozen[i].1)
  }

  ghost predicate Inv(s: State, es: seq<Step>)
    requires Shaped(s)
  {
    Tallies(s, WindowsOf(es))
  }

  ghost predicate PartlyLists(t: Table, keys: seq<Key>, values: seq<UserCom>)
  {
    && |keys| == |values|
    && (forall i :: 0 <= i < |keys| ==> keys[i] in t && values[i] == t[keys[i]])
    && (forall i, j :: 0 <= i < j < |keys| ==> keys[i] != keys[j])
  }

  /** A table in the middle of being copied: the copy is part of the window, what is still to be copied is as
      in the window, and what is in the table but not in the window has been passed. */
  ghost predicate Copying(t: Table, window: Table, keys: seq<Key>, values: seq<UserCom>, passed: set<Key>)
  {
    && PartlyLists(window, keys, values)
    && window.Keys !! passed && window.Keys <= t.Keys <= window.Keys + passed
    && forall k :: k in window && k !in keys ==> t[k] == window[k]
  }

  lemma VisitStep(t: Table, window: Table, keys: seq<Key>, values: seq<UserCom>, passed: set<Key>, k: Key)
    requires Copying(t, window, keys, values, passed) && k in t && k !in keys && k !in passed
    ensures Copying(t, window, keys + [k], values + [t[k]], passed)
  {
    assert k in window;
  }

  lemma EarlyStep(t: Table, window: Table, keys: seq<Key>, values: seq<UserCom>, passed: set<Key>, k: Key, v: UserCom)
    requires Copying(t, window, keys, values, passed) && k !in keys && k !in passed
    ensures Copying(t[k := v], window[k := v], keys, values, passed)
  {
  }

  lemma LateStep(t: Table, window: Table, keys: seq<Key>, values: seq<UserCom>, passed: set<Key>, k: Key, v: UserCom)
    requires Copying(t, window, keys, values, passed) && (k in keys || k in passed)
    ensures Copying(t[k := v], window, keys, values, passed)
  {
  }

  lemma ExhaustStep(t: Table, window: Table, keys: seq<Key>, values: seq<UserCom>, passed: set<Key>)
    requires Copying(t, window, keys, values, passed)
    requires forall k :: k in t.Keys ==> k in keys || k in passed
    ensures Lists(window, keys, values) && At(t, {}) == map[]
  {
  }

  lemma WindowsSnoc(s: State, es: seq<Step>, e: Step)
    requires Run(es) == Some(s)
    ensures var w := WindowsOf(es);
            WindowsOf(es + [e]) ==
            if e.Cas? then Windows(w.closed + [w.current], w.next, map[])
            else if e.PutInsert? && e.task in s.puts then Record(w, FateOf(s, e.task), s.puts[e.task])
            else w
  {
    assert (es + [e])[..|es|] == es;
  }

  lemma PutAmongWiped(t: Table, wiped: set<Key>, put: Put)
    ensures At(With(t, put), wiped) == if put.key in wiped then With(At(t, wiped), put) else At(t, wiped)
  {
  }

  lemma WipeStep(t: Table, wiped: set<Key>, k: Key)
    requires k !in wiped
    ensures At(t - {k}, wiped + {k}) == At(t, wiped)
  {
  }

  lemma InsertTallies(s: State, w: Windows, task: Task)
    requires Shaped(s) && Tallies(s, w) && task in s.puts
    ensures Tallies(Apply(s, PutInsert(task)).value, Record(w, FateOf(s, task), s.puts[task]))
  {
    var put := s.puts[task];
    if put.idx != s.active && s.freezer.Iterating? {
      var (t, window, f) := (s.tables[1 - s.active], w.closed[|s.frozen|], s.freezer);
      if FateOf(s, task) == Late {
        LateStep(t, window, f.keys, f.values, f.passed, put.key, put.value);
      } else {
        EarlyStep(t, window, f.keys, f.values, f.passed, put.key, put.value);
      }
    } else if put.idx != s.active && s.freezer.Copied? {
      PutAmongWiped(s.tables[1 - s.active], s.freezer.wiped, put);
    }
  }

  lemma FreezerTallies(s: State, w: Windows, e: Step)
    requires Shaped(s) && Tallies(s, w) && Apply(s, e).Some? && !e.PutInsert? && !e.Cas?
    ensures Tallies(Apply(s, e).value, w)
  {
    var (t, f) := (s.tables[1 - s.active], s.freezer);
    match e
    case Visit(k) => VisitStep(t, w.closed[|s.frozen|], f.keys, f.values, f.passed, k);
    case Exhaust => ExhaustStep(t, w.closed[|s.frozen|], f.keys, f.values, f.passed);
    case Wipe(k) => WipeStep(t, f.wiped, k);
    case _ =>
  }

  lemma SwitchTallies(s: State, w: Windows)
    requires Shaped(s) && Tallies(s, w) && s.freezer.Idle?
    ensures Tallies(Apply(s, Cas).value, Windows(w.closed + [w.current], w.next, map[]))
  {
  }

  lemma StepKeepsInv(s: State, es: seq<Step>, e: Step)
    requires Run(es) == Some(s) && Inv(s, es) && Apply(s, e).Some?
    ensures Inv(Apply(s, e).value, es + [e])
  {
    WindowsSnoc(s, es, e);
    if e.PutInsert? {
      InsertTallies(s, WindowsOf(es), e.task);
    } else if e.Cas? {
      SwitchTallies(s, WindowsOf(es));
    } else {
      FreezerTallies(s, WindowsOf(es), e);
    }
  }

  lemma {:induction false} RunKeepsInv(es: seq<Step>)
    requires Run(es).Some?
    ensures Inv(Run(es).value, es)
  {
    if es != [] {
      var before, e := es[..|es| - 1], es[|es| - 1];
      RunKeepsInv(before);
      StepKeepsInv(Run(before).value, before, e);
      assert before + [e] == es;
    }
  }

  /** In every interleaving whatsoever: freeze number i returns exactly the entries of window i, each once;
      the active table is the current window; and outside a freeze the inactive table is what is already in
      the next one. */
  lemma {:induction false} FreezesAreWindows(es: seq<Step>)
    requires Run(es).Some?
    ensures var s, w := Run(es).value, WindowsOf(es);
            && Returned(s.frozen, w.closed)
            && s.tables[s.active] == w.current
            && |w.closed| == |s.frozen| + (if s.freezer.Idle? then 0 else 1)
            && (s.freezer.Idle? ==> s.tables[1 - s.active] == w.next)
  {
    RunKeepsInv(es);
  }

  // ---------- when nothing comes between the halves of a put ----------

  /** No switch comes between the two halves of a put. */
  predicate Undisturbed(es: seq<Step>)
  {
    es == [] || (
      && Undisturbed(es[..|es| - 1])
      && (es[|es| - 1].Cas? && Run(es[..|es| - 1]).Some? ==> Run(es[..|es| - 1]).value.puts == map[]))
  }

  ghost predicate AllFresh(s: State)
    requires Shaped(s)
  {
    forall task :: task in s.puts ==> s.puts[task].idx == s.active
  }

  /** Then every put is fresh, nothing is ever ahead, and so the inactive table is empty outside a freeze. */
  lemma {:induction false} UndisturbedIsFresh(es: seq<Step>)
    requires Run(es).Some? && Undisturbed(es)
    ensures var s := Run(es).value;
            && AllFresh(s)
            && WindowsOf(es).next == map[]
            && (s.freezer.Idle? ==> s.tables[1 - s.active] == map[])
  {
    RunKeepsInv(es);
    if es != [] {
      var before, e := es[..|es| - 1], es[|es| - 1];
      UndisturbedIsFresh(before);
      var s := Run(before).value;
      assert before + [e] == es;
      WindowsSnoc(s, before, e);
    }
  }

  // ---------- what becomes of a put ----------

  /** The window a put belongs to, unless it is too late for any. */
  function WindowAt(es: seq<Step>, j: nat): int
    requires j < |es| && PutAt(es, j).Some?
  {
    var n := |WindowsOf(es[..j]).closed|;
    match PutAt(es, j).value.1 case Fresh => n case Ahead => n + 1 case Early => n - 1 case Late => -1
  }

  /** The windows, numbered: the closed ones, the current one, the next one. */
  function WindowNumber(w: Windows, n: int): Table
  {
    if 0 <= n < |w.closed| then w.closed[n]
    else if n == |w.closed| then w.current
    else if n == |w.closed| + 1 then w.next
    else map[]
  }

  predicate Holds(t: Table, put: Put)
  {
    put.key in t && t[put.key] == put.value
  }

  /** A later put of the same key into the same window. */
  predicate OverwrittenBy(es: seq<Step>, j: nat, i: nat)
    requires j < |es| && PutAt(es, j).Some?
  {
    && j < i < |es| && PutAt(es, i).Some?
    && PutAt(es, i).value.0.key == PutAt(es, j).value.0.key && WindowAt(es, i) == WindowAt(es, j)
  }

  lemma PutAtPrefix(es: seq<Step>, n: nat, j: nat)
    requires j < n <= |es|
    ensures PutAt(es[..n], j) == PutAt(es, j)
    ensures PutAt(es, j).Some? ==> WindowAt(es[..n], j) == WindowAt(es, j)
  {
    assert es[..n][..j] == es[..j];
  }

  /** What a step does to a numbered window: a put into that window goes into it, a switch only gives it
      another place. */
  lemma {:induction false} WindowStep(es: seq<Step>, n: int)
    requires es != [] && 0 <= n
    ensures var last := |es| - 1;
            var (t, put) := (WindowNumber(WindowsOf(es[..last]), n), PutAt(es, last));
            n <= |WindowsOf(es[..last]).closed| + 1 ==>
              WindowNumber(WindowsOf(es), n) ==
              if put.Some? && WindowAt(es, last) == n then With(t, put.value.0) else t
  {
  }

  lemma {:induction false} WindowBound(es: seq<Step>, j: nat)
    requires j < |es| && PutAt(es, j).Some?
    ensures WindowAt(es, j) <= |WindowsOf(es).closed| + 1
    ensures Run(es[..j]).Some? && (PutAt(es, j).value.1 != Late ==> WindowAt(es, j) >= 0)
  {
    ClosedGrow(es, j);
    RunKeepsInv(es[..j]);
  }

  lemma {:induction false} ClosedGrow(es: seq<Step>, j: nat)
    requires j <= |es|
    ensures |WindowsOf(es[..j]).closed| <= |WindowsOf(es).closed|
  {
    if j < |es| {
      ClosedGrow(es[..|es| - 1], j);
      assert es[..|es| - 1][..j] == es[..j];
    } else {
      assert es[..j] == es;
    }
  }

  /** No put is lost unless it comes too late: it is in its window, unless a later put of the same key fell
      into the same one. */
  lemma {:induction false} PutKept(es: seq<Step>, j: nat)
    requires j < |es| && PutAt(es, j).Some? && PutAt(es, j).value.1 != Late
    ensures || Holds(WindowNumber(WindowsOf(es), WindowAt(es, j)), PutAt(es, j).value.0)
            || exists i :: OverwrittenBy(es, j, i)
  {
    var last := |es| - 1;
    WindowBound(es, j);
    if j == last {
      assert es[..last] + [PutInsert(es[last].task)] == es;
      InsertExactly(es[..last], es[last].task);
    } else {
      var before := es[..last];
      PutAtPrefix(es, last, j);
      WindowBound(before, j);
      PutKept(before, j);
      WindowStep(es, WindowAt(es, j));
      if i :| OverwrittenBy(before, j, i) {
        PutAtPrefix(es, last, i);
        assert OverwrittenBy(es, j, i);
      } else if PutAt(es, last).Some? && WindowAt(es, last) == WindowAt(es, j)
                && PutAt(es, last).value.0.key == PutAt(es, j).value.0.key {
        assert OverwrittenBy(es, j, last);
      }
    }
  }

  /** A put into a window. */
  predicate FilledBy(es: seq<Step>, n: nat, key: Key, value: UserCom, j: nat)
  {
    && j < |es| && PutAt(es, j).Some? && WindowAt(es, j) == n
    && PutAt(es, j).value.0.key == key && PutAt(es, j).value.0.value == value
  }

  /** Nothing is invented: every entry of a window was put into that window. */
  lemma {:induction false} EntryWasPut(es: seq<Step>, n: nat, key: Key) returns (j: nat)
    requires key in WindowNumber(WindowsOf(es), n)
    ensures FilledBy(es, n, key, WindowNumber(WindowsOf(es), n)[key], j)
  {
    var last := |es| - 1;
    var before := es[..last];
    WindowStep(es, n);
    if PutAt(es, last).Some? && WindowAt(es, last) == n && PutAt(es, last).value.0.key == key {
      WindowBound(es, last);
      j := last;
    } else {
      j := EntryWasPut(before, n, key);
      PutAtPrefix(es, last, j);
    }
  }

  /** The put is told from others by its value, and nothing is put over it. */
  ghost predicate Distinguished(es: seq<Step>, j: nat)
    requires j < |es| && PutAt(es, j).Some?
  {
    && (forall i :: 0 <= i < |es| && i != j && PutAt(es, i).Some? ==> PutAt(es, i).value.0.value != PutAt(es, j).value.0.value)
    && (forall i :: !OverwrittenBy(es, j, i))
  }

  ghost predicate InSomeWindow(w: Windows, put: Put)
  {
    exists n: nat :: Holds(WindowNumber(w, n), put)
  }

  /** A put is in a window exactly when it does not come too late. */
  lemma {:induction false} InWindowExactly(es: seq<Step>, j: nat)
    requires j < |es| && PutAt(es, j).Some? && Distinguished(es, j)
    ensures InSomeWindow(WindowsOf(es), PutAt(es, j).value.0) <==> PutAt(es, j).value.1 != Late
  {
    var put := PutAt(es, j).value.0;
    if PutAt(es, j).value.1 != Late {
      PutKept(es, j);
      WindowBound(es, j);
      var n: nat := WindowAt(es, j);
      assert Holds(WindowNumber(WindowsOf(es), n), put);
    }
    if n: nat :| Holds(WindowNumber(WindowsOf(es), n), put) {
      var i := EntryWasPut(es, n, put.key);
      assert i == j;
    }
  }

  /** What a freeze has returned contains the put. */
  ghost predicate Copies(keys: seq<Key>, values: seq<UserCom>, put: Put)
  {
    exists x :: 0 <= x < |keys| && x < |values| && keys[x] == put.key && values[x] == put.value
  }

  lemma ListedExactly(t: Table, keys: seq<Key>, values: seq<UserCom>, put: Put)
    requires Lists(t, keys, values)
    ensures Copies(keys, values, put) <==> Holds(t, put)
  {
    if Holds(t, put) {
      var x :| 0 <= x < |keys| && keys[x] == put.key;
      assert values[x] == put.value;
    }
  }

  /** The put is in one of the tables or has been returned by a freeze. */
  ghost predicate Found(s: State, put: Put)
    requires Shaped(s)
  {
    || Holds(s.tables[0], put) || Holds(s.tables[1], put)
    || exists i :: 0 <= i < |s.frozen| && Copies(s.frozen[i].0, s.frozen[i].1, put)
  }

  /** Outside a freeze, the windows are the tables and what has been returned. */
  lemma FoundInWindow(s: State, w: Windows, put: Put)
    requires Shaped(s) && Tallies(s, w) && s.freezer.Idle?
    ensures Found(s, put) <==> InSomeWindow(w, put)
  {
    forall i | 0 <= i < |s.frozen|
      ensures Copies(s.frozen[i].0, s.frozen[i].1, put) <==> Holds(WindowNumber(w, i), put)
    {
      ListedExactly(w.closed[i], s.frozen[i].0, s.frozen[i].1, put);
    }
    var n := |w.closed|;
    assert WindowNumber(w, n) == s.tables[s.active] && WindowNumber(w, n + 1) == s.tables[1 - s.active];
    if InSomeWindow(w, put) {
      var m: nat :| Holds(WindowNumber(w, m), put);
      assert m <= n + 1;
    }
  }

  /** A put is lost exactly when it comes too late: after any run that is not in the middle of a freeze, it is in
      one of the tables or was returned by a freeze unless it was inserted into the table that was being frozen
      after its key had been copied, its place passed or the copy ended, and before its place was cleared. */
  lemma {:induction false} LostExactly(es: seq<Step>, j: nat)
    requires Run(es).Some? && Run(es).value.freezer.Idle?
    requires j < |es| && PutAt(es, j).Some? && Distinguished(es, j)
    ensures Found(Run(es).value, PutAt(es, j).value.0) <==> PutAt(es, j).value.1 != Late
  {
    RunKeepsInv(es);
    FoundInWindow(Run(es).value, WindowsOf(es), PutAt(es, j).value.0);
    InWindowExactly(es, j);
  }

  /** What the insert of a put does: unless it comes too late it goes into its window, else no window changes. */
  lemma {:induction false} InsertExactly(es: seq<Step>, task: Task)
    requires Run(es).Some? && task in Run(es).value.puts
    ensures var s, es1 := Run(es).value, es + [PutInsert(task)];
            && PutAt(es1, |es|) == Some((s.puts[task], FateOf(s, task)))
            && (if FateOf(s, task) == Late then WindowsOf(es1) == WindowsOf(es)
                else Holds(WindowNumber(WindowsOf(es1), WindowAt(es1, |es|)), s.puts[task]))
  {
    var es1 := es + [PutInsert(task)];
    assert es1[..|es|] == es;
    if PutAt(es1, |es|).value.1 != Late {
      RunKeepsInv(es);
      WindowsSnoc(Run(es).value, es, PutInsert(task));
    }
  }

  /** Outside a freeze, the insert of a put fills the inactive table, which should be empty, exactly when it
      comes ahead. */
  lemma AheadExactly(s: State, task: Task)
    requires Shaped(s) && task in s.puts && s.freezer.Idle? && s.tables[1 - s.active] == map[]
    ensures var t := Apply(s, PutInsert(task)).value;
            t.tables[1 - t.active] != map[] <==> FateOf(s, task) == Ahead
  {
    assert s.puts[task].key in With(map[], s.puts[task]);
  }

  lemma {:induction false} Snoc(es: seq<Step>, e: Step)
    ensures Run(es + [e]) == (match Run(es) case Some(s) => Apply(s, e) case None => None)
  {
    assert (es + [e])[..|es|] == es;
  }

  /** A put divided by a switch: the state in which its second half is still to come. */
  function Divided(task: Task, put: Put): State
  {
    State([map[], map[]], 1, map[task := put], Iterating([], [], {}), [])
  }

  lemma DividedReached(task: Task, k: Key, v: UserCom)
    ensures Run([PutLoad(task, k, v), Cas]) == Some(Divided(task, Put(0, k, v)))
  {
    Snoc([], PutLoad(task, k, v));
    Snoc([PutLoad(task, k, v)], Cas);
    assert [] + [PutLoad(task, k, v)] == [PutLoad(task, k, v)];
    assert [PutLoad(task, k, v)] + [Cas] == [PutLoad(task, k, v), Cas];
  }

  lemma DividedInsert(task: Task, put: Put, f: Freezer)
    requires put.idx == 0
    ensures Apply(State([map[], map[]], 1, map[task := put], f, []), PutInsert(task)) ==
            Some(State([With(map[], put), map[]], 1, map[], f, []))
  {
    var tables: seq<Table> := [map[], map[]];
    assert tables[0 := With(map[], put)] == [With(map[], put), map[]];
    assert map[task := put] - {task} == map[];
  }

  lemma DividedClean(t: Table, keys: seq<Key>, values: seq<UserCom>)
    ensures Apply(State([t, map[]], 1, map[], Copied(keys, values, {}), []), Clean) ==
            Some(State([map[], map[]], 1, map[], Idle, [(keys, values)]))
  {
    var tables: seq<Table> := [t, map[]];
    assert tables[0 := map[]] == [map[], map[]];
    assert [] + [(keys, values)] == [(keys, values)];
  }

  /** It can be lost: here it ends in no table and in no freeze. */
  lemma DividedPutIsLost(task: Task, k: Key, v: UserCom)
    ensures Run([PutLoad(task, k, v), Cas] + [Exhaust] + [PutInsert(task)] + [Clean]) ==
            Some(State([map[], map[]], 1, map[], Idle, [([], [])]))
  {
    var es, put := [PutLoad(task, k, v), Cas], Put(0, k, v);
    DividedReached(task, k, v);
    Snoc(es, Exhaust);
    Snoc(es + [Exhaust], PutInsert(task));
    DividedInsert(task, put, Copied([], [], {}));
    Snoc(es + [Exhaust] + [PutInsert(task)], Clean);
    DividedClean(With(map[], put), [], []);
  }

  /** And it can be kept: here the freeze returns it. */
  lemma DividedPutIsKept(task: Task, k: Key, v: UserCom)
    ensures Run([PutLoad(task, k, v), Cas] + [PutInsert(task)] + [Visit(k)] + [Exhaust] + [Clean]) ==
            Some(State([map[], map[]], 1, map[], Idle, [([k], [v])]))
  {
    var es, put := [PutLoad(task, k, v), Cas], Put(0, k, v);
    DividedReached(task, k, v);
    Snoc(es, PutInsert(task));
    DividedInsert(task, put, Iterating([], [], {}));
    Snoc(es + [PutInsert(task)], Visit(k));
    Snoc(es + [PutInsert(task)] + [Visit(k)], Exhaust);
    assert [] + [k] == [k] && [] + [v] == [v];
    Snoc(es + [PutInsert(task)] + [Visit(k)] + [Exhaust], Clean);
    DividedClean(With(map[], put), [k], [v]);
  }

  /** It can be lost even though the iterator is still under way and has not come across its key: here another
      key has been copied, and the iterator has passed the place of this one. */
  lemma PassedPutIsLost(j: Key, v: UserCom, k: Key, w: UserCom)
    requires j != k
    ensures Run([PutLoad(0, j, v), PutInsert(0)] + [PutLoad(1, k, w)] + [Cas] + [Visit(j)] + [Pass(k)] + [PutInsert(1)]
                + [Exhaust] + [Clean]) ==
            Some(State([map[], map[]], 1, map[], Idle, [([j], [v])]))
  {
    var es0 := [PutLoad(0, j, v), PutInsert(0)];
    var es := es0 + [PutLoad(1, k, w)] + [Cas] + [Visit(j)] + [Pass(k)];
    PassedReached(j, v, k, w);
    Snoc(es, PutInsert(1));
    Snoc(es + [PutInsert(1)], Exhaust);
    Snoc(es + [PutInsert(1)] + [Exhaust], Clean);
    var t: Table := map[j := v];
    var tables: seq<Table> := [t, map[]];
    assert tables[0 := t[k := w]] == [t[k := w], map[]];
    assert map[1 := Put(0, k, w)] - {1} == map[];
    assert Run(es + [PutInsert(1)]) == Some(State([t[k := w], map[]], 1, map[], Iterating([j], [v], {k}), []));
    DividedClean(t[k := w], [j], [v]);
  }

  /** A put that was divided by the switch and inserts while the old table is being cleared: it stays there, for the
      window after the next switch, if the clearing has gone past its place, and is wiped out if not. The freeze
      returns the same. */
  lemma {:induction false} ClearedPlaceExactly(es: seq<Step>, s: State, task: Task)
    requires Run(es) == Some(s) && s.freezer.Copied? && task in s.puts && s.puts[task].idx != s.active
    requires s.puts[task].key !in s.freezer.wiped
    ensures var put, frozen := s.puts[task], s.frozen + [(s.freezer.keys, s.freezer.values)];
            var kept := Run(es + [Wipe(put.key)] + [PutInsert(task)] + [Clean]);
            var lost := Run(es + [PutInsert(task)] + [Wipe(put.key)] + [Clean]);
            && kept.Some? && lost.Some? && kept.value.frozen == frozen && lost.value.frozen == frozen
            && kept.value.active == s.active && lost.value.active == s.active
            && put.key in kept.value.tables[1 - s.active] && kept.value.tables[1 - s.active][put.key] == put.value
            && put.key !in lost.value.tables[1 - s.active]
  {
    var k := s.puts[task].key;
    Snoc(es, Wipe(k));
    Snoc(es + [Wipe(k)], PutInsert(task));
    Snoc(es + [Wipe(k)] + [PutInsert(task)], Clean);
    Snoc(es, PutInsert(task));
    Snoc(es + [PutInsert(task)], Wipe(k));
    Snoc(es + [PutInsert(task)] + [Wipe(k)], Clean);
  }

  lemma PassedReached(j: Key, v: UserCom, k: Key, w: UserCom)
    requires j != k
    ensures Run([PutLoad(0, j, v), PutInsert(0)] + [PutLoad(1, k, w)] + [Cas] + [Visit(j)] + [Pass(k)]) ==
            Some(State([map[j := v], map[]], 1, map[1 := Put(0, k, w)], Iterating([j], [v], {k}), []))
  {
    var es0 := [PutLoad(0, j, v), PutInsert(0)];
    Snoc([], PutLoad(0, j, v));
    Snoc([PutLoad(0, j, v)], PutInsert(0));
    assert [] + [PutLoad(0, j, v)] == [PutLoad(0, j, v)] && [PutLoad(0, j, v)] + [PutInsert(0)] == es0;
    var empty: seq<Table> := [map[], map[]];
    assert empty[0 := map[j := v]] == [map[j := v], map[]];
    assert map[0 := Put(0, j, v)] - {0} == map[];
    assert Run(es0) == Some(State([map[j := v], map[]], 0, map[], Idle, []));
    Snoc(es0, PutLoad(1, k, w));
    var es1 := es0 + [PutLoad(1, k, w)] + [Cas];
    var puts: map<Task, Put> := map[];
    assert puts[1 := Put(0, k, w)] == map[1 := Put(0, k, w)];
    Snoc(es0 + [PutLoad(1, k, w)], Cas);
    assert Run(es1) == Some(State([map[j := v], map[]], 1, map[1 := Put(0, k, w)], Iterating([], [], {}), []));
    Snoc(es1, Visit(j));
    assert [] + [j] == [j] && [] + [v] == [v];
    assert Run(es1 + [Visit(j)]) == Some(State([map[j := v], map[]], 1, map[1 := Put(0, k, w)], Iterating([j], [v], {}), []));
    Snoc(es1 + [Visit(j)], Pass(k));
    assert {} + {k} == {k};
  }
}
