/** The control-plane resolver: which backends it knows, which it can reach, and which it picks next. */
module Resolver {
  import opened ByteStrings

  datatype Status = Unavailable | Available

  /** An entry: its connection is only a token here. */
  datatype Channel = Channel(status: Status, generation: nat, link: nat)

  /** A cluster member as the control plane reports it. */
  datatype Member = Member(name: string, generation: nat)

  type Backends = map<string, Channel>

  const USIZE := 0x1_0000_0000_0000_0000

  // ---------- picking ----------

  /** The entries an iteration of the table finds available, in its order. */
  function Candidates(order: seq<string>, b: Backends): (r: seq<string>)
    ensures forall n :: n in r <==> n in order && n in b && b[n].status == Available
    ensures |r| <= |order|
  {
    if order == [] then []
    else (if order[0] in b && b[order[0]].status == Available then [order[0]] else []) + Candidates(order[1..], b)
  }

  /** The index after `pick` among `n` candidates; the counter is a usize. */
  function NextPick(pick: nat, n: nat): (r: nat)
    ensures n > 0 ==> r < n
  {
    var p := (pick + 1) % USIZE;
    if p >= n then 0 else p
  }

  function PickAfter(pick: nat, n: nat, k: nat): (r: nat)
    ensures n > 0 ==> r < n
  {
    if k == 0 then NextPick(pick, n) else NextPick(PickAfter(pick, n, k - 1), n)
  }

  /** From the first of them on, picks go up and round. */
  lemma {:induction false} PicksGoRound(pick: nat, n: nat, k: nat)
    requires k < n < USIZE
    ensures var first := PickAfter(pick, n, 0);
            PickAfter(pick, n, k) == if first + k < n then first + k else first + k - n
  {
    if k > 0 {
      PicksGoRound(pick, n, k - 1);
      var p := PickAfter(pick, n, k - 1);
      assert (p + 1) % USIZE == p + 1;
      assert PickAfter(pick, n, k) == if p + 1 >= n then 0 else p + 1;
    }
  }

  /** Any n consecutive picks among n candidates, from whatever the counter was, take each exactly once. */
  lemma EachPickedOnce(pick: nat, n: nat, target: nat)
    requires target < n < USIZE
    ensures exists k :: 0 <= k < n && PickAfter(pick, n, k) == target
    ensures forall i, j :: 0 <= i < j < n ==> PickAfter(pick, n, i) != PickAfter(pick, n, j)
  {
    var first := PickAfter(pick, n, 0);
    forall k: nat | k < n
      ensures PickAfter(pick, n, k) == if first + k < n then first + k else first + k - n
    {
      PicksGoRound(pick, n, k);
    }
    var k := if target >= first then target - first else target + n - first;
    assert PickAfter(pick, n, k) == target;
  }

  ghost predicate Distinct(names: seq<string>)
  {
    forall i, j :: 0 <= i < j < |names| ==> names[i] != names[j]
  }

  lemma {:induction false} CandidatesDistinct(order: seq<string>, b: Backends)
    requires Distinct(order)
    ensures Distinct(Candidates(order, b))
  {
    if order != [] {
      CandidatesDistinct(order[1..], b);
      assert forall i :: 0 < i < |order| ==> order[i] == order[1..][i - 1];
      assert order[0] !in order[1..];
    }
  }

  /** The backend taken at turn `k`. */
  function PickedAt(c: seq<string>, pick: nat, k: nat): string
    requires c != []
  {
    c[PickAfter(pick, |c|, k)]
  }

  /** A backend is taken at some turn of a round, and at no second one. */
  ghost predicate TakenOnce(c: seq<string>, pick: nat, name: string)
    requires c != []
  {
    && (exists k: nat :: k < |c| && PickedAt(c, pick, k) == name)
    && (forall i: nat, j: nat :: i < j < |c| && PickedAt(c, pick, i) == name ==> PickedAt(c, pick, j) != name)
  }

  lemma CandidateTakenOnce(c: seq<string>, pick: nat, target: nat)
    requires target < |c| < USIZE && Distinct(c)
    ensures TakenOnce(c, pick, c[target])
  {
    EachPickedOnce(pick, |c|, target);
    var k :| 0 <= k < |c| && PickAfter(pick, |c|, k) == target;
    assert PickedAt(c, pick, k) == c[target];
    forall i: nat, j: nat | i < j < |c| && PickedAt(c, pick, i) == c[target]
      ensures PickedAt(c, pick, j) != c[target]
    {
      assert PickAfter(pick, |c|, i) != PickAfter(pick, |c|, j);
    }
  }

  /** As long as the table yields its entries in the same order, n consecutive picks take every one of
      the n available backends, and each of them at exactly one of the n turns. */
  lemma EachBackendPickedOnce(order: seq<string>, b: Backends, pick: nat, name: string)
    requires Distinct(order) && |order| < USIZE && name in order && name in b && b[name].status == Available
    ensures var c := Candidates(order, b); c != [] && TakenOnce(c, pick, name)
  {
    var c := Candidates(order, b);
    CandidatesDistinct(order, b);
    assert name in c;
    var target: nat :| target < |c| && c[target] == name;
    CandidateTakenOnce(c, pick, target);
  }

  // ---------- refreshing ----------

  /** What the connection attempt to a member does to its entry. */
  function Upsert(b: Backends, m: Member, dialled: Option<nat>): Backends
  {
    match dialled
    case None => b - {m.name}
    case Some(link) =>
      if m.name !in b || b[m.name].status == Unavailable then b[m.name := Channel(Available, m.generation, link)]
      else if m.generation > b[m.name].generation then b[m.name := Channel(Available, m.generation, link)]
      else b
  }

  function UpsertAll(b: Backends, ms: seq<Member>, dials: seq<Option<nat>>): Backends
    requires |ms| == |dials|
  {
    if ms == [] then b
    else Upsert(UpsertAll(b, ms[..|ms| - 1], dials[..|ms| - 1]), ms[|ms| - 1], dials[|ms| - 1])
  }

  predicate Names(ms: seq<Member>, name: string)
  {
    exists k :: 0 <= k < |ms| && ms[k].name == name
  }

  function Kept(b: Backends, ms: seq<Member>): Backends
  {
    map n | n in b && Names(ms, n) :: b[n]
  }

  /** `update_backends`, given how each connection attempt goes. */
  function Refresh(b: Backends, ms: seq<Member>, dials: seq<Option<nat>>): Backends
    requires |ms| == |dials|
  {
    UpsertAll(Kept(b, ms), ms, dials)
  }

  /** The last report of a name. */
  predicate LastReport(ms: seq<Member>, name: string, k: nat)
  {
    k < |ms| && ms[k].name == name && forall j :: k < j < |ms| ==> ms[j].name != name
  }

  lemma {:induction false} UpsertedEntry(b: Backends, ms: seq<Member>, dials: seq<Option<nat>>, name: string, k: nat)
    requires |ms| == |dials| && LastReport(ms, name, k)
    ensures var r := UpsertAll(b, ms, dials);
            (name in r <==> dials[k].Some?) && (name in r ==> r[name].status == Available)
    decreases |ms|
  {
    var last := |ms| - 1;
    if k < last {
      UpsertedEntry(b, ms[..last], dials[..last], name, k);
    }
  }

  lemma {:induction false} UntouchedEntry(b: Backends, ms: seq<Member>, dials: seq<Option<nat>>, name: string)
    requires |ms| == |dials| && !Names(ms, name)
    ensures var r := UpsertAll(b, ms, dials); (name in r <==> name in b) && (name in b ==> r[name] == b[name])
    decreases |ms|
  {
    if ms != [] {
      var last := |ms| - 1;
      assert ms[last].name != name;
      assert forall k :: 0 <= k < last ==> ms[..last][k] == ms[k];
      UntouchedEntry(b, ms[..last], dials[..last], name);
    }
  }

  lemma {:induction false} LastReportExists(ms: seq<Member>, name: string) returns (k: nat)
    requires Names(ms, name)
    ensures LastReport(ms, name, k)
  {
    var last := |ms| - 1;
    if ms[last].name == name {
      k := last;
    } else {
      var i :| 0 <= i < |ms| && ms[i].name == name;
      assert ms[..last][i].name == name;
      k := LastReportExists(ms[..last], name);
      assert ms[..last][k] == ms[k];
    }
  }

  /** After a refresh the resolver knows exactly the names whose last report could be connected to, and
      every one of them is available. */
  lemma RefreshExactly(b: Backends, ms: seq<Member>, dials: seq<Option<nat>>, name: string)
    requires |ms| == |dials|
    ensures var r := Refresh(b, ms, dials);
            && (name in r <==> exists k: nat :: LastReport(ms, name, k) && dials[k].Some?)
            && (name in r ==> r[name].status == Available)
  {
    if Names(ms, name) {
      var k := LastReportExists(ms, name);
      UpsertedEntry(Kept(b, ms), ms, dials, name, k);
    } else {
      UntouchedEntry(Kept(b, ms), ms, dials, name);
      assert !exists k: nat :: LastReport(ms, name, k);
    }
  }

  /** With distinct names, an entry that was available and stays does not go back to an older generation,
      and is reconnected iff the reported generation is newer; an entry that is new or was unavailable has the
      generation and the connection of the report. */
  lemma RefreshGenerations(b: Backends, ms: seq<Member>, dials: seq<Option<nat>>, k: nat)
    requires |ms| == |dials| && k < |ms| && dials[k].Some?
    requires forall i, j :: 0 <= i < j < |ms| ==> ms[i].name != ms[j].name
    ensures var name, r := ms[k].name, Refresh(b, ms, dials);
            && name in r
            && r[name] == if name in b && b[name].status == Available && ms[k].generation <= b[name].generation
                          then b[name] else Channel(Available, ms[k].generation, dials[k].value)
  {
    assert Names(ms, ms[k].name);
    UpsertedOnce(Kept(b, ms), ms, dials, k);
  }

  lemma {:induction false} UpsertedOnce(b: Backends, ms: seq<Member>, dials: seq<Option<nat>>, k: nat)
    requires |ms| == |dials| && k < |ms|
    requires forall i, j :: 0 <= i < j < |ms| ==> ms[i].name != ms[j].name
    ensures var (name, r) := (ms[k].name, UpsertAll(b, ms, dials));
            (name in r <==> name in Upsert(b, ms[k], dials[k]))
            && (name in r ==> r[name] == Upsert(b, ms[k], dials[k])[name])
    decreases |ms|
  {
    var last := |ms| - 1;
    if k < last {
      UpsertedOnce(b, ms[..last], dials[..last], k);
    } else {
      assert !Names(ms[..last], ms[k].name);
      UntouchedEntry(b, ms[..last], dials[..last], ms[k].name);
    }
  }

  // ---------- the resolver as it runs ----------

  class CpResolver {
    var backends: Backends
    var pickIndex: nat

    constructor ()
      ensures backends == map[] && pickIndex == 0
    {
      backends, pickIndex := map[], 0;
    }

    /** `get_cp_backend`, for an iteration of the table in the given order; `None` is its panic when
        nothing is available. */
    method GetCpBackend(order: seq<string>) returns (r: Option<string>)
      requires pickIndex < USIZE
      modifies this`pickIndex
      ensures var c := Candidates(order, backends);
              && pickIndex == NextPick(old(pickIndex), |c|)
              && r == if c == [] then None else Some(c[pickIndex])
    {
      var c := Candidates(order, backends);
      pickIndex := (pickIndex + 1) % USIZE;
      if pickIndex >= |c| {
        pickIndex := 0;
      }
      r := if c == [] then None else Some(c[pickIndex]);
    }

    method MarkBackendUnavailable(name: string)
      modifies this`backends
      ensures backends == Marked(old(backends), name)
    {
      if name in backends {
        backends := backends[name := backends[name].(status := Unavailable)];
      }
    }

    /** `update_backends`: drop the names that are gone, then deal with the members one by one. */
    method UpdateBackends(ms: seq<Member>, dials: seq<Option<nat>>)
      requires |ms| == |dials|
      modifies this`backends
      ensures backends == Refresh(old(backends), ms, dials)
    {
      var gone := set n | n in backends && !Names(ms, n);
      backends := backends - gone;
      assert backends == Kept(old(backends), ms);
      for k := 0 to |ms|
        invariant backends == UpsertAll(Kept(old(backends), ms), ms[..k], dials[..k])
      {
        assert ms[..k + 1][..k] == ms[..k] && dials[..k + 1][..k] == dials[..k];
        backends := Upsert(backends, ms[k], dials[k]);
      }
      assert ms[..|ms|] == ms && dials[..|ms|] == dials;
    }
  }

  function Marked(b: Backends, name: string): Backends
  {
    if name in b then b[name := b[name].(status := Unavailable)] else b
  }

  // ---------- runs ----------

  datatype Action =
    | Pick(order: seq<string>)
    | Mark(name: string)
    | Update(ms: seq<Member>, dials: seq<Option<nat>>)

  predicate Sensible(as_: seq<Action>)
  {
    forall k :: 0 <= k < |as_| && as_[k].Update? ==> |as_[k].ms| == |as_[k].dials|
  }

  /** The table after a sequence of actions on it. */
  function TableAfter(b: Backends, as_: seq<Action>): Backends
    requires Sensible(as_)
  {
    if as_ == [] then b else
    var before := TableAfter(b, as_[..|as_| - 1]);
    match as_[|as_| - 1]
    case Pick(_) => before
    case Mark(name) => Marked(before, name)
    case Update(ms, dials) => Refresh(before, ms, dials)
  }

  /** A refresh that connects to the last report of a name. */
  ghost predicate Reconnects(a: Action, name: string)
  {
    a.Update? && |a.ms| == |a.dials| && exists k: nat :: LastReport(a.ms, name, k) && a.dials[k].Some?
  }

  /** A backend marked unavailable is not a candidate again, whatever happens, until a refresh
      reconnects to it. */
  lemma {:induction false} MarkedNotPicked(b: Backends, name: string, as_: seq<Action>, order: seq<string>)
    requires Sensible(as_) && forall k :: 0 <= k < |as_| ==> !Reconnects(as_[k], name)
    ensures name !in Candidates(order, TableAfter(Marked(b, name), as_))
    decreases |as_|
  {
    if as_ != [] {
      var init, a := as_[..|as_| - 1], as_[|as_| - 1];
      assert !Reconnects(a, name);
      MarkedNotPicked(b, name, init, [name]);
      if a.Update? {
        RefreshExactly(TableAfter(Marked(b, name), init), a.ms, a.dials, name);
      }
    }
  }

  /** Marking a backend touches nothing but its status. */
  lemma MarkedExactly(b: Backends, name: string, n: string)
    ensures n in Marked(b, name) <==> n in b
    ensures n in b && n != name ==> Marked(b, name)[n] == b[n]
    ensures name in b ==> Marked(b, name)[name] == b[name].(status := Unavailable)
  {
  }

  /** A refresh that does not drop a name: it reports it, and the connection attempt to its last report succeeds. */
  ghost predicate Spares(a: Action, name: string)
  {
    match a
    case Pick(_) => true
    case Mark(n) => n != name
    case Update(_, _) => Reconnects(a, name)
  }

  /** An available backend that is neither marked nor dropped by a refresh stays a candidate, whatever happens. */
  lemma {:induction false} SparedStaysCandidate(b: Backends, name: string, as_: seq<Action>, order: seq<string>)
    requires Sensible(as_) && name in b && b[name].status == Available && name in order
    requires forall k :: 0 <= k < |as_| ==> Spares(as_[k], name)
    ensures name in Candidates(order, TableAfter(b, as_))
    decreases |as_|
  {
    if as_ != [] {
      var init, a := as_[..|as_| - 1], as_[|as_| - 1];
      assert Spares(a, name);
      SparedStaysCandidate(b, name, init, order);
      if a.Update? {
        RefreshExactly(TableAfter(b, init), a.ms, a.dials, name);
      } else if a.Mark? {
        MarkedExactly(TableAfter(b, init), a.name, name);
      }
    }
  }

  /** The candidates are in the order of the iteration. */
  lemma {:induction false} CandidatesInOrder(a: seq<string>, c: seq<string>, b: Backends)
    ensures Candidates(a + c, b) == Candidates(a, b) + Candidates(c, b)
    decreases |a|
  {
    if a == [] {
      assert a + c == c;
    } else {
      assert (a + c)[1..] == a[1..] + c;
      CandidatesInOrder(a[1..], c, b);
    }
  }

  lemma CandidateAlone(name: string, b: Backends)
    ensures Candidates([name], b) == if name in b && b[name].status == Available then [name] else []
  {
    assert [name][1..] == [];
  }

  /** The first pick is the one behind the last, or the first of all: also when the counter has come to its end. */
  lemma FirstPick(pick: nat, n: nat)
    requires pick < USIZE && 0 < n < USIZE
    ensures PickAfter(pick, n, 0) == if pick + 1 < n then pick + 1 else 0
  {
  }
}
