/**
 * Module planning of the one-time port: in which order the schemas are emitted, and which of them
 * depend on ProductionContext. References are a graph over the schema names.
 */
module Planning {
  import opened Wrappers

  type Graph<T(==)> = map<T, set<T>>

  ghost predicate Distinct<T(!new)>(s: seq<T>) {
    forall i, j :: 0 <= i < j < |s| ==> s[i] != s[j]
  }

  function Elements<T(==, !new)>(s: seq<T>): set<T> {
    set x | x in s
  }

  function References<T(==, !new)>(deps: Graph<T>, name: T): set<T> {
    if name in deps then deps[name] else {}
  }

  function InGroup<T(==, !new)>(names: seq<T>, deps: Graph<T>, name: T): set<T> {
    References(deps, name) * Elements(names)
  }

  // ----- What an emission order and a reference cycle are -----------------------------------------

  /** A permutation of the names in which every in-group reference comes before its user. */
  ghost predicate IsOrder<T(!new)>(names: seq<T>, deps: Graph<T>, p: seq<T>) {
    Distinct(p) && Elements(p) == Elements(names) &&
    forall i :: 0 <= i < |p| ==> InGroup(names, deps, p[i]) <= Elements(p[..i])
  }

  ghost predicate Walk<T(!new)>(names: seq<T>, deps: Graph<T>, w: seq<T>) {
    (forall i :: 0 <= i < |w| ==> w[i] in names) &&
    forall i :: 0 <= i < |w| - 1 ==> w[i + 1] in References(deps, w[i])
  }

  /** A walk of at least one reference that returns to its start; [a, a] is a self-reference. */
  ghost predicate Cycle<T(!new)>(names: seq<T>, deps: Graph<T>, w: seq<T>) {
    Walk(names, deps, w) && |w| > 1 && w[0] == w[|w| - 1]
  }

  ghost predicate Acyclic<T(!new)>(names: seq<T>, deps: Graph<T>) {
    forall w :: !Cycle(names, deps, w)
  }

  /** The first name at which the two differ is earlier in `order` in `r` than in `p`. */
  ghost predicate LexicographicallyBefore<T(!new)>(order: map<T, int>, r: seq<T>, p: seq<T>) {
    exists i :: 0 <= i < |r| && i < |p| && r[..i] == p[..i]
             && r[i] in order && p[i] in order && order[r[i]] < order[p[i]]
  }

  // ----- Sequences and sets ----------------------------------------------------------------------

  lemma {:induction false} DistinctSize<T(!new)>(s: seq<T>)
    requires Distinct(s)
    ensures |Elements(s)| == |s|
  {
    if s != [] {
      var init, last := s[..|s| - 1], s[|s| - 1];
      assert forall x :: x in s <==> x in init || x == last;
      assert Elements(s) == Elements(init) + {last};
      DistinctSize(init);
    }
  }

  lemma {:induction false} SubsetSize<T(!new)>(a: set<T>, b: set<T>)
    requires a <= b
    ensures |a| <= |b|
    ensures |a| == |b| ==> a == b
  {
    if a != {} {
      var x :| x in a;
      SubsetSize(a - {x}, b - {x});
    }
  }

  lemma DistinctCons<T(!new)>(x: T, s: seq<T>)
    ensures Distinct(s) && x !in s ==> Distinct([x] + s)
    ensures Distinct(s) && x !in s ==> Distinct(s + [x])
  {
  }

  function Filter<T(==, !new)>(s: seq<T>, keep: set<T>): (r: seq<T>)
    ensures forall x :: x in r <==> x in s && x in keep
    ensures Distinct(s) ==> Distinct(r)
  {
    if s == [] then []
    else
      assert forall x :: x in s <==> x == s[0] || x in s[1..];
      var tail := Filter(s[1..], keep);
      assert Distinct(s) ==> Distinct(s[1..]) && s[0] !in s[1..];
      DistinctCons(s[0], tail);
      if s[0] in keep then [s[0]] + tail else tail
  }

  function InsertBy<T(==, !new)>(order: map<T, int>, x: T, s: seq<T>): (r: seq<T>)
    requires x in order && forall y :: y in s ==> y in order
    ensures forall y :: y in r <==> y == x || y in s
    ensures |r| == |s| + 1
    ensures Distinct(s) && x !in s ==> Distinct(r)
  {
    DistinctCons(x, s);
    if s == [] || order[x] <= order[s[0]] then [x] + s
    else
      assert forall y :: y in s <==> y == s[0] || y in s[1..];
      var tail := InsertBy(order, x, s[1..]);
      assert Distinct(s) ==> Distinct(s[1..]) && s[0] !in s[1..];
      DistinctCons(s[0], tail);
      [s[0]] + tail
  }

  /** Array.prototype.sort with the comparison of the order index. */
  function SortBy<T(==, !new)>(order: map<T, int>, s: seq<T>): (r: seq<T>)
    requires forall y :: y in s ==> y in order
    ensures |r| == |s|
    ensures forall y :: y in r <==> y in s
    ensures Distinct(s) ==> Distinct(r)
  {
    if s == [] then []
    else
      assert forall y :: y in s <==> y == s[0] || y in s[1..];
      InsertBy(order, s[0], SortBy(order, s[1..]))
  }

  lemma {:induction false} SortByLeast<T(!new)>(order: map<T, int>, s: seq<T>)
    requires s != [] && forall y :: y in s ==> y in order
    ensures forall y :: y in s ==> order[SortBy(order, s)[0]] <= order[y]
  {
    assert forall y :: y in s <==> y == s[0] || y in s[1..];
    if s[1..] != [] {
      SortByLeast(order, s[1..]);
    }
  }

  /** Taking the first of the sorted list takes a least element out of the list. */
  lemma SortedHead<T(!new)>(order: map<T, int>, s: seq<T>)
    requires s != [] && Distinct(s) && forall y :: y in s ==> y in order
    ensures var r := SortBy(order, s);
      && r[0] in s && (forall y :: y in s ==> order[r[0]] <= order[y])
      && Distinct(r[1..]) && forall y :: y in r[1..] <==> y in s && y != r[0]
  {
    var r := SortBy(order, s);
    SortByLeast(order, s);
    assert forall y :: y in r <==> y == r[0] || y in r[1..];
  }

  // ----- The greedy sequence ---------------------------------------------------------------------

  ghost predicate ReadyAfter<T(!new)>(names: seq<T>, deps: Graph<T>, done: seq<T>, name: T) {
    name in names && name !in done && InGroup(names, deps, name) <= Elements(done)
  }

  ghost predicate LeastReady<T(!new)>(names: seq<T>, deps: Graph<T>, order: map<T, int>, done: seq<T>, x: T) {
    ReadyAfter(names, deps, done, x) &&
    forall n :: ReadyAfter(names, deps, done, n) && x in order && n in order ==> order[x] <= order[n]
  }

  ghost predicate Greedy<T(!new)>(names: seq<T>, deps: Graph<T>, order: map<T, int>, r: seq<T>) {
    forall i :: 0 <= i < |r| ==> LeastReady(names, deps, order, r[..i], r[i])
  }

  ghost predicate Indexed<T(!new)>(names: seq<T>, order: map<T, int>) {
    (forall n :: n in names ==> n in order) &&
    forall m, n :: m in names && n in names && order[m] == order[n] ==> m == n
  }

  lemma GreedySnoc<T(!new)>(names: seq<T>, deps: Graph<T>, order: map<T, int>, r: seq<T>, next: T)
    requires Greedy(names, deps, order, r) && LeastReady(names, deps, order, r, next)
    ensures Greedy(names, deps, order, r + [next])
  {
    forall i | 0 <= i < |r + [next]|
      ensures LeastReady(names, deps, order, (r + [next])[..i], (r + [next])[i])
    {
      assert (r + [next])[..i] == r[..i];
      assert r[..|r|] == r;
    }
  }

  lemma GreedyIsOrder<T(!new)>(names: seq<T>, deps: Graph<T>, order: map<T, int>, r: seq<T>)
    requires Greedy(names, deps, order, r) && Distinct(names)
    ensures Distinct(r) && Elements(r) <= Elements(names)
    ensures |r| == |names| ==> IsOrder(names, deps, r)
  {
    forall i, j | 0 <= i < j < |r|
      ensures r[i] != r[j]
    {
      assert LeastReady(names, deps, order, r[..j], r[j]);
      assert r[i] in r[..j];
    }
    forall i | 0 <= i < |r|
      ensures r[i] in names
    {
      assert LeastReady(names, deps, order, r[..i], r[i]);
    }
    DistinctSize(r);
    DistinctSize(names);
    SubsetSize(Elements(r), Elements(names));
  }

  /** Wherever a valid order departs from the greedy one, it takes a later name. */
  lemma {:induction false} GreedyIsLeast<T(!new)>(names: seq<T>, deps: Graph<T>, order: map<T, int>,
                                            r: seq<T>, p: seq<T>, i: nat)
    requires Distinct(names) && Indexed(names, order) && Greedy(names, deps, order, r)
    requires |r| == |names| && IsOrder(names, deps, p) && i <= |r| && i <= |p| && r[..i] == p[..i]
    ensures r == p || LexicographicallyBefore(order, r, p)
    decreases |r| - i
  {
    if i == |r| {
      SameSize(names, deps, p);
      assert r[..i] == r && p[..i] == p;
    } else {
      SameSize(names, deps, p);
      OrderReady(names, deps, p, i);
      assert LeastReady(names, deps, order, r[..i], r[i]);
      if r[i] == p[i] {
        assert r[..i + 1] == r[..i] + [r[i]] && p[..i + 1] == p[..i] + [p[i]];
        GreedyIsLeast(names, deps, order, r, p, i + 1);
      }
    }
  }

  lemma SameSize<T(!new)>(names: seq<T>, deps: Graph<T>, p: seq<T>)
    requires Distinct(names) && IsOrder(names, deps, p)
    ensures |p| == |names|
  {
    DistinctSize(p);
    DistinctSize(names);
  }

  lemma OrderReady<T(!new)>(names: seq<T>, deps: Graph<T>, p: seq<T>, i: nat)
    requires IsOrder(names, deps, p) && i < |p|
    ensures ReadyAfter(names, deps, p[..i], p[i])
  {
    assert p[i] in Elements(p);
    assert p[i] !in p[..i];
  }

  // ----- Cycles ------------------------------------------------------------------------------------

  function IndexOf<T(==, !new)>(p: seq<T>, x: T): (i: nat)
    requires x in p
    ensures i < |p| && p[i] == x
  {
    if p[0] == x then 0 else 1 + IndexOf(p[1..], x)
  }

  /** Along a walk the position in a valid order goes down with every reference. */
  lemma {:induction false} WalkDescends<T(!new)>(names: seq<T>, deps: Graph<T>, p: seq<T>, w: seq<T>)
    requires IsOrder(names, deps, p) && Walk(names, deps, w) && w != []
    ensures w[0] in p && w[|w| - 1] in p
    ensures IndexOf(p, w[|w| - 1]) <= IndexOf(p, w[0]) - (|w| - 1)
  {
    assert w[0] in Elements(p) && w[|w| - 1] in Elements(p);
    if |w| > 1 {
      var i := IndexOf(p, w[0]);
      assert w[1] in References(deps, w[0]) && w[1] in Elements(names);
      assert w[1] in Elements(p[..i]);
      WalkDescends(names, deps, p, w[1..]);
    }
  }

  lemma OrderExcludesCycles<T(!new)>(names: seq<T>, deps: Graph<T>, p: seq<T>)
    requires IsOrder(names, deps, p)
    ensures Acyclic(names, deps)
  {
    forall w | Cycle(names, deps, w)
      ensures false
    {
      WalkDescends(names, deps, p, w);
    }
  }

  /** When every member of `stuck` references a member of `stuck`, walks inside it can be long. */
  lemma {:induction false} LongWalk<T(!new)>(names: seq<T>, deps: Graph<T>, stuck: set<T>, x: T, k: nat)
      returns (w: seq<T>)
    requires stuck <= Elements(names) && x in stuck
    requires forall y :: y in stuck ==> References(deps, y) * stuck != {}
    ensures Walk(names, deps, w) && |w| == k + 1 && w[0] == x && forall y :: y in w ==> y in stuck
  {
    w := [x];
    if k > 0 {
      var y :| y in References(deps, x) * stuck;
      var tail := LongWalk(names, deps, stuck, y, k - 1);
      w := [x] + tail;
      assert forall z :: z in w <==> z == x || z in tail;
    }
  }

  lemma Repeats<T(!new)>(w: seq<T>, s: set<T>) returns (i: nat, j: nat)
    requires |w| > |s| && forall y :: y in w ==> y in s
    ensures i < j < |w| && w[i] == w[j]
  {
    if Distinct(w) {
      DistinctSize(w);
      SubsetSize(Elements(w), s);
      assert false;
    }
    i, j :| 0 <= i < j < |w| && w[i] == w[j];
  }

  lemma StuckHasCycle<T(!new)>(names: seq<T>, deps: Graph<T>, stuck: set<T>) returns (c: seq<T>)
    requires stuck <= Elements(names) && stuck != {}
    requires forall y :: y in stuck ==> References(deps, y) * stuck != {}
    ensures Cycle(names, deps, c)
  {
    var x :| x in stuck;
    var w := LongWalk(names, deps, stuck, x, |stuck|);
    var i, j := Repeats(w, stuck);
    c := w[i..j + 1];
    PartOfWalk(names, deps, w, i, j + 1);
  }

  lemma PartOfWalk<T(!new)>(names: seq<T>, deps: Graph<T>, w: seq<T>, i: nat, j: nat)
    requires Walk(names, deps, w) && i < j <= |w|
    ensures Walk(names, deps, w[i..j])
  {
    var c := w[i..j];
    forall k | 0 <= k < |c|
      ensures c[k] in names
      ensures k < |c| - 1 ==> c[k + 1] in References(deps, c[k])
    {
      assert c[k] == w[i + k];
      assert k < |c| - 1 ==> c[k + 1] == w[i + k + 1];
    }
  }

  // ----- The sort ----------------------------------------------------------------------------------

  lemma TakeOne<T(!new)>(s: set<T>, done: seq<T>, next: T)
    requires next !in done
    ensures s - Elements(done + [next]) == s - Elements(done) - {next}
    ensures |s - Elements(done + [next])| == |s - Elements(done)| - if next in s then 1 else 0
  {
    assert Elements(done + [next]) == Elements(done) + {next};
    if next in s {
      assert next in s - Elements(done);
    } else {
      assert s - Elements(done) - {next} == s - Elements(done);
    }
  }

  /** How many in-group references of `name` are not done yet. */
  ghost function Pending<T(!new)>(names: seq<T>, deps: Graph<T>, done: seq<T>, name: T): int {
    |InGroup(names, deps, name) - Elements(done)|
  }

  lemma PendingReady<T(!new)>(names: seq<T>, deps: Graph<T>, done: seq<T>, name: T)
    ensures ReadyAfter(names, deps, done, name)
        <==> name in names && name !in done && Pending(names, deps, done, name) == 0
  {
    var rest := InGroup(names, deps, name) - Elements(done);
    assert forall x :: x in InGroup(names, deps, name) ==> x in rest || x in Elements(done);
    assert rest == {} <==> InGroup(names, deps, name) <= Elements(done);
  }

  /** Nothing that is done waits for anything. */
  ghost predicate Settled<T(!new)>(names: seq<T>, deps: Graph<T>, done: seq<T>) {
    forall n :: n in done ==> InGroup(names, deps, n) <= Elements(done)
  }

  lemma GreedySettled<T(!new)>(names: seq<T>, deps: Graph<T>, order: map<T, int>, r: seq<T>)
    requires Greedy(names, deps, order, r)
    ensures Settled(names, deps, r)
  {
    forall i | 0 <= i < |r|
      ensures InGroup(names, deps, r[i]) <= Elements(r)
    {
      assert LeastReady(names, deps, order, r[..i], r[i]);
    }
  }

  /** Taking `next` counts its users down, and frees those that waited for nothing else. */
  lemma Taken<T(!new)>(names: seq<T>, deps: Graph<T>, done: seq<T>, next: T, name: T)
    requires ReadyAfter(names, deps, done, next) && name in names && Settled(names, deps, done)
    ensures Pending(names, deps, done + [next], name)
         == Pending(names, deps, done, name) - if next in References(deps, name) then 1 else 0
    ensures next in References(deps, name) ==> name !in done && name != next
    ensures ReadyAfter(names, deps, done + [next], name) <==>
      (ReadyAfter(names, deps, done, name) && name != next) ||
      (next in References(deps, name) && Pending(names, deps, done, name) == 1)
  {
    TakeOne(InGroup(names, deps, name), done, next);
    PendingReady(names, deps, done, name);
    PendingReady(names, deps, done + [next], name);
    if next in References(deps, name) {
      assert next in InGroup(names, deps, name);
      assert next !in Elements(done);
    }
  }

  /** Counts down the users of `next`; those that reach zero join the ready list as `entered`. */
  method Release<T(==, !new)>(names: seq<T>, deps: Graph<T>, next: T, remaining: map<T, int>, ready: seq<T>)
    returns (remaining': map<T, int>, ready': seq<T>, ghost entered: seq<T>)
    requires Distinct(names) && Distinct(ready) && forall n :: n in names ==> n in remaining
    requires forall n :: n in names && next in References(deps, n) && remaining[n] == 1 ==> n !in ready
    ensures remaining'.Keys == remaining.Keys
    ensures forall n :: n in names ==>
      remaining'[n] == remaining[n] - if next in References(deps, n) then 1 else 0
    ensures Distinct(ready') && ready' == ready + entered
    ensures forall n :: n in ready' <==>
      n in ready || (n in names && next in References(deps, n) && remaining[n] == 1)
  {
    remaining', ready', entered := remaining, ready, [];
    for i := 0 to |names|
      invariant remaining'.Keys == remaining.Keys
      invariant forall j :: 0 <= j < i ==>
        remaining'[names[j]] == remaining[names[j]] - if next in References(deps, names[j]) then 1 else 0
      invariant forall j :: i <= j < |names| ==> remaining'[names[j]] == remaining[names[j]]
      invariant Distinct(ready') && ready' == ready + entered
      invariant forall n :: n in ready' <==>
        n in ready || (n in names[..i] && next in References(deps, n) && remaining[n] == 1)
    {
      var name := names[i];
      assert names[..i + 1] == names[..i] + [name];
      assert name !in names[..i];
      if next in References(deps, name) {
        var count := remaining'[name] - 1;
        remaining' := remaining'[name := count];
        if count == 0 {
          DistinctCons(name, ready');
          ready' := ready' + [name];
          entered := entered + [name];
        }
      }
    }
    assert names[..|names|] == names;
  }

  /** The loop state of the sort: the greedy sequence so far, its counters and its ready list. */
  ghost predicate SortState<T(!new)>(names: seq<T>, deps: Graph<T>, order: map<T, int>,
                                     result: seq<T>, remaining: map<T, int>, ready: seq<T>) {
    Greedy(names, deps, order, result) && Distinct(ready) &&
    (forall n :: n in names ==> n in remaining && remaining[n] == Pending(names, deps, result, n)) &&
    forall n :: n in ready <==> ReadyAfter(names, deps, result, n)
  }

  lemma SortStep<T(!new)>(names: seq<T>, deps: Graph<T>, order: map<T, int>, result: seq<T>,
                          remaining: map<T, int>, ready: seq<T>, next: T, remaining': map<T, int>, ready': seq<T>)
    requires SortState(names, deps, order, result, remaining, ready)
    requires next in ready && LeastReady(names, deps, order, result, next)
    requires remaining'.Keys == remaining.Keys && Distinct(ready')
    requires forall n :: n in names ==>
      remaining'[n] == remaining[n] - if next in References(deps, n) then 1 else 0
    requires forall n :: n in ready' <==>
      (n in ready && n != next) || (n in names && next in References(deps, n) && remaining[n] == 1)
    ensures SortState(names, deps, order, result + [next], remaining', ready')
  {
    GreedySettled(names, deps, order, result);
    GreedySnoc(names, deps, order, result, next);
    forall n
      ensures n in names ==> remaining'[n] == Pending(names, deps, result + [next], n)
      ensures n in ready' <==> ReadyAfter(names, deps, result + [next], n)
    {
      if n in names {
        Taken(names, deps, result, next, n);
      }
    }
  }

  /** `log` lists the names that have entered the ready list, each once: they are ready or done. */
  ghost predicate Logged<T(!new)>(log: seq<T>, result: seq<T>, ready: seq<T>) {
    Distinct(log) && forall n :: n in log <==> n in result || n in ready
  }

  lemma LogStep<T(!new)>(names: seq<T>, deps: Graph<T>, result: seq<T>, had: seq<T>, next: T, rest: seq<T>,
                         entered: seq<T>, log: seq<T>)
    requires Logged(log, result, had) && ReadyAfter(names, deps, result, next) && Settled(names, deps, result)
    requires (forall n :: n in rest <==> n in had && n != next) && next in had && Distinct(rest + entered)
    requires forall n :: n in entered ==> n in names && next in References(deps, n) && n !in had
    ensures Logged(log + entered, result + [next], rest + entered)
  {
    forall n | n in entered
      ensures n !in log
    {
      Taken(names, deps, result, next, n);
    }
    forall i, j | 0 <= i < j < |log + entered|
      ensures (log + entered)[i] != (log + entered)[j]
    {
      if |log| <= i {
        assert (rest + entered)[|rest| + i - |log|] == entered[i - |log|];
        assert (rest + entered)[|rest| + j - |log|] == entered[j - |log|];
      } else if |log| <= j {
        assert entered[j - |log|] in entered && log[i] in log;
      }
    }
  }

  /** Repeatedly takes the ready name of least order index. `log` is every name that ever entered the ready
      list, in this order. */
  method TopologicalOrder<T(==, !new)>(names: seq<T>, deps: Graph<T>, order: map<T, int>)
    returns (r: Result<seq<T>, string>, ghost log: seq<T>)
    requires Distinct(names) && Indexed(names, order)
    ensures Distinct(log) && (forall n :: n in log ==> n in names)
    ensures r.Ok? ==> Elements(log) == Elements(names)
    ensures r.Ok? ==> IsOrder(names, deps, r.value)
    ensures r.Ok? ==> forall p :: IsOrder(names, deps, p) ==> r.value == p || LexicographicallyBefore(order, r.value, p)
    ensures r.Ok? <==> Acyclic(names, deps)
  {
    var remaining := map n | n in names :: |InGroup(names, deps, n)|;
    var result: seq<T> := [];
    var ready := Filter(names, set n | n in names && remaining[n] == 0);
    SortStart(names, deps, order, remaining, ready);
    log := ready;
    while |ready| > 0
      invariant SortState(names, deps, order, result, remaining, ready) && Logged(log, result, ready)
      decreases |names| - |result|
    {
      ghost var was, had := remaining, ready;
      Picked(names, deps, order, result, remaining, ready);
      ready := SortBy(order, ready);
      var next := ready[0];
      ghost var rest, entered := ready[1..], [];
      remaining, ready, entered := Release(names, deps, next, remaining, ready[1..]);
      SortStep(names, deps, order, result, was, had, next, remaining, ready);
      EnteredNew(names, deps, order, result, was, had, next, rest, entered);
      LogStep(names, deps, result, had, next, rest, entered, log);
      log := log + entered;
      result := result + [next];
      GreedySize(names, deps, order, result);
    }
    LoggedNames(names, deps, order, result, remaining, ready, log);
    if |result| != |names| {
      ghost var c := StuckCycle(names, deps, order, result);
      return Err("schema reference cycle detected (unsupported)"), log;
    }
    SortEnd(names, deps, order, result);
    return Ok(result), log;
  }

  lemma EnteredNew<T(!new)>(names: seq<T>, deps: Graph<T>, order: map<T, int>, result: seq<T>, remaining: map<T, int>,
                            had: seq<T>, next: T, rest: seq<T>, entered: seq<T>)
    requires SortState(names, deps, order, result, remaining, had) && next in had
    requires (forall n :: n in rest <==> n in had && n != next) && Distinct(rest + entered)
    requires forall n :: n in rest + entered ==>
      n in rest || (n in names && next in References(deps, n) && remaining[n] == 1)
    ensures ReadyAfter(names, deps, result, next) && Settled(names, deps, result)
    ensures forall n :: n in entered ==> n in names && next in References(deps, n) && n !in had
  {
    GreedySettled(names, deps, order, result);
    forall n | n in entered
      ensures n in names && next in References(deps, n) && n !in had
    {
      var i :| 0 <= i < |entered| && entered[i] == n;
      assert (rest + entered)[|rest| + i] == n;
      forall j | 0 <= j < |rest|
        ensures rest[j] != n
      {
        assert (rest + entered)[j] == rest[j];
      }
      PendingReady(names, deps, result, n);
    }
  }

  lemma LoggedNames<T(!new)>(names: seq<T>, deps: Graph<T>, order: map<T, int>, result: seq<T>,
                             remaining: map<T, int>, ready: seq<T>, log: seq<T>)
    requires Distinct(names) && Indexed(names, order)
    requires SortState(names, deps, order, result, remaining, ready) && Logged(log, result, ready)
    ensures forall n :: n in log ==> n in names
    ensures |result| == |names| ==> Elements(log) == Elements(names)
  {
    GreedyIsOrder(names, deps, order, result);
    if |result| == |names| {
      SortEnd(names, deps, order, result);
      assert forall n :: n in names <==> n in Elements(names);
      assert forall n :: n in result <==> n in Elements(result);
    }
  }

  lemma SortStart<T(!new)>(names: seq<T>, deps: Graph<T>, order: map<T, int>, remaining: map<T, int>, ready: seq<T>)
    requires forall n :: n in names ==> n in remaining && remaining[n] == |InGroup(names, deps, n)|
    requires Distinct(ready) && forall n :: n in ready <==> n in names && remaining[n] == 0
    ensures SortState(names, deps, order, [], remaining, ready)
  {
    forall n
      ensures Pending(names, deps, [], n) == |InGroup(names, deps, n)|
      ensures n in ready <==> ReadyAfter(names, deps, [], n)
    {
      assert InGroup(names, deps, n) - Elements([]) == InGroup(names, deps, n);
      PendingReady(names, deps, [], n);
    }
  }

  lemma ReadyInOrder<T(!new)>(names: seq<T>, deps: Graph<T>, order: map<T, int>, result: seq<T>,
                              remaining: map<T, int>, ready: seq<T>)
    requires SortState(names, deps, order, result, remaining, ready) && Indexed(names, order)
    ensures Distinct(ready) && (forall y :: y in ready ==> y in order) && forall n :: n in names ==> n in remaining
  {
  }

  /** What the sorted ready list offers: its head is the least ready name, and no user of the head is in it. */
  lemma Picked<T(!new)>(names: seq<T>, deps: Graph<T>, order: map<T, int>, result: seq<T>,
                        remaining: map<T, int>, ready: seq<T>)
    requires SortState(names, deps, order, result, remaining, ready) && Indexed(names, order) && ready != []
    ensures forall y :: y in ready ==> y in order
    ensures var r := SortBy(order, ready);
      && r[0] in ready && LeastReady(names, deps, order, result, r[0])
      && Distinct(r[1..]) && (forall y :: y in r[1..] <==> y in ready && y != r[0])
      && forall n :: n in names && r[0] in References(deps, n) ==> n !in r[1..]
  {
    ReadyInOrder(names, deps, order, result, remaining, ready);
    SortedHead(order, ready);
    GreedySettled(names, deps, order, result);
    var next := SortBy(order, ready)[0];
    forall n | n in names && next in References(deps, n)
      ensures n !in ready
    {
      Taken(names, deps, result, next, n);
      PendingReady(names, deps, result, n);
      PendingReady(names, deps, result + [next], n);
    }
  }

  lemma SortEnd<T(!new)>(names: seq<T>, deps: Graph<T>, order: map<T, int>, result: seq<T>)
    requires Distinct(names) && Indexed(names, order)
    requires Greedy(names, deps, order, result) && |result| == |names|
    ensures IsOrder(names, deps, result) && Acyclic(names, deps)
    ensures forall p :: IsOrder(names, deps, p) ==> result == p || LexicographicallyBefore(order, result, p)
  {
    GreedyIsOrder(names, deps, order, result);
    OrderExcludesCycles(names, deps, result);
    forall p | IsOrder(names, deps, p)
      ensures result == p || LexicographicallyBefore(order, result, p)
    {
      GreedyIsLeast(names, deps, order, result, p, 0);
    }
  }

  lemma GreedySize<T(!new)>(names: seq<T>, deps: Graph<T>, order: map<T, int>, r: seq<T>)
    requires Greedy(names, deps, order, r) && Distinct(names)
    ensures |r| <= |names|
  {
    GreedyIsOrder(names, deps, order, r);
    DistinctSize(r);
    DistinctSize(names);
    SubsetSize(Elements(r), Elements(names));
  }

  lemma StuckCycle<T(!new)>(names: seq<T>, deps: Graph<T>, order: map<T, int>, done: seq<T>) returns (c: seq<T>)
    requires Distinct(names) && Greedy(names, deps, order, done) && |done| != |names|
    requires forall n :: !ReadyAfter(names, deps, done, n)
    ensures Cycle(names, deps, c)
  {
    var stuck := Elements(names) - Elements(done);
    GreedyIsOrder(names, deps, order, done);
    DistinctSize(names);
    DistinctSize(done);
    forall y | y in stuck
      ensures References(deps, y) * stuck != {}
    {
      assert !ReadyAfter(names, deps, done, y);
      assert !(InGroup(names, deps, y) <= Elements(done));
      var z :| z in InGroup(names, deps, y) && z !in Elements(done);
      assert z in References(deps, y) * stuck;
    }
    assert forall x :: x in Elements(names) ==> x in stuck || x in Elements(done);
    assert stuck == {} ==> Elements(names) == Elements(done);
    c := StuckHasCycle(names, deps, stuck);
  }
}
