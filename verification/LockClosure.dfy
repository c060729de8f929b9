/** The lockfile closure (`scripts/rust-port/lock_closure.py`): the packages that a set of workspace
    crates can resolve to, in sorted order. A package is named by its index in the lockfile, so
    that two tables with equal contents stay two. */
module LockClosure {
  import opened Common

  datatype Package = Package(name: string, version: string, source: Option<string>, dependencies: seq<string>)
  type Lock = seq<Package>

  datatype Error = NoPackages | BadRoot(root: string) | BadEdge(edge: string)
  datatype Result<+T> = Ok(value: T) | Err(error: Error)

  // ---------- Edges ----------

  datatype Edge = Edge(name: string, version: Option<string>, source: Option<string>)

  /** Index of the first space, or the length. */
  function BeforeSpace(s: string): (n: nat)
    ensures n <= |s| && ' ' !in s[..n]
    ensures n < |s| ==> s[n] == ' '
  {
    if s == "" || s[0] == ' ' then 0
    else
      var n := BeforeSpace(s[1..]);
      assert s[..n + 1] == [s[0]] + s[1..][..n];
      n + 1
  }

  /** `s[1:-1]`. */
  function Inner(s: string): string {
    if |s| <= 2 then "" else s[1..|s| - 1]
  }

  /** `_parse_edge`: a name, then an optional version, then an optional source in parentheses. */
  function ParseEdge(edge: string): Edge {
    var n := BeforeSpace(edge);
    if n == |edge| then Edge(edge, None, None)
    else
      var rest := edge[n + 1..];
      var v := BeforeSpace(rest);
      if v == |rest| then Edge(edge[..n], Some(rest), None)
      else Edge(edge[..n], Some(rest[..v]), Some(Inner(rest[v + 1..])))
  }

  function EdgeText(e: Edge): string {
    e.name
    + (if e.version.Some? then " " + e.version.value else "")
    + (if e.version.Some? && e.source.Some? then " (" + e.source.value + ")" else "")
  }

  lemma {:induction false} BeforeSpaceIs(s: string, n: nat)
    requires n <= |s| && ' ' !in s[..n] && (n < |s| ==> s[n] == ' ')
    ensures BeforeSpace(s) == n
  {
    if n > 0 {
      assert s[..n] == [s[0]] + s[1..][..n - 1];
      BeforeSpaceIs(s[1..], n - 1);
    }
  }

  lemma NameCutOff(name: string, rest: string)
    requires ' ' !in name
    ensures BeforeSpace(name) == |name|
    ensures BeforeSpace(name + " " + rest) == |name| && (name + " " + rest)[..|name|] == name
    ensures (name + " " + rest)[|name| + 1..] == rest
  {
    BeforeSpaceIs(name, |name|);
    var text := name + " " + rest;
    assert text[..|name|] == name;
    BeforeSpaceIs(text, |name|);
  }

  lemma InnerOf(source: string)
    ensures Inner("(" + source + ")") == source
  {
    var text := "(" + source + ")";
    assert text[1..|text| - 1] == source;
  }

  lemma VersionedEdge(name: string, rest: string, version: string, source: Option<string>)
    requires ' ' !in name && ' ' !in version
    requires rest == version + (if source.Some? then " (" + source.value + ")" else "")
    ensures ParseEdge(name + " " + rest) == Edge(name, Some(version), source)
  {
    hide BeforeSpace, Inner;
    NameCutOff(name, rest);
    if source.None? {
      NameCutOff(version, "");
      assert rest == version;
    } else {
      var inside := "(" + source.value + ")";
      NameCutOff(version, inside);
      InnerOf(source.value);
      assert rest == version + " " + inside;
    }
  }

  /** Every edge the lockfile format can spell is read back. */
  lemma EdgeRoundTrip(e: Edge)
    requires ' ' !in e.name && (e.version.Some? ==> ' ' !in e.version.value)
    requires e.source.Some? ==> e.version.Some?
    ensures ParseEdge(EdgeText(e)) == e
  {
    if e.version.None? {
      NameCutOff(e.name, "");
      assert EdgeText(e) == e.name;
    } else {
      hide ParseEdge;
      var rest := e.version.value + (if e.source.Some? then " (" + e.source.value + ")" else "");
      assert EdgeText(e) == e.name + " " + rest;
      VersionedEdge(e.name, rest, e.version.value, e.source);
    }
  }

  // ---------- Resolution ----------

  predicate Matches(p: Package, e: Edge) {
    && p.name == e.name
    && (e.version.None? || Some(p.version) == e.version)
    && (e.source.None? || p.source == e.source)
  }

  /** The indices from `from` on that match, in order. */
  function Matching(lock: Lock, e: Edge, from: nat): seq<nat>
    requires from <= |lock|
    decreases |lock| - from
  {
    if from == |lock| then []
    else (if Matches(lock[from], e) then [from] else []) + Matching(lock, e, from + 1)
  }

  predicate IsLocal(p: Package, name: string) { p.name == name && p.source.None? }

  function LocalMatching(lock: Lock, name: string, from: nat): seq<nat>
    requires from <= |lock|
    decreases |lock| - from
  {
    if from == |lock| then []
    else (if IsLocal(lock[from], name) then [from] else []) + LocalMatching(lock, name, from + 1)
  }

  /** The package at `i` has the name, and the version and the source as far as they are given. */
  ghost predicate Named(lock: Lock, i: nat, name: string, version: Option<string>, source: Option<string>) {
    && i < |lock| && lock[i].name == name
    && (version.Some? ==> lock[i].version == version.value)
    && (source.Some? ==> lock[i].source == Some(source.value))
  }

  ghost predicate OnlyNamed(lock: Lock, i: nat, name: string, version: Option<string>, source: Option<string>) {
    Named(lock, i, name, version, source) && forall j: nat :: Named(lock, j, name, version, source) ==> j == i
  }

  /** `i` is the one package the edge can mean. */
  ghost predicate OnlyMatch(lock: Lock, e: Edge, i: nat) {
    OnlyNamed(lock, i, e.name, e.version, e.source)
  }

  ghost predicate LocalNamed(lock: Lock, i: nat, name: string) {
    i < |lock| && lock[i].name == name && lock[i].source == None
  }

  /** `i` is the one package of that name that has no source. */
  ghost predicate OnlyLocal(lock: Lock, name: string, i: nat) {
    LocalNamed(lock, i, name) && forall j: nat :: LocalNamed(lock, j, name) ==> j == i
  }

  function Resolve(lock: Lock, edge: string): Option<nat> {
    var matches := Matching(lock, ParseEdge(edge), 0);
    if |matches| == 1 then Some(matches[0]) else None
  }

  function ResolveRoot(lock: Lock, root: string): Option<nat> {
    var local := LocalMatching(lock, root, 0);
    if |local| == 1 then Some(local[0]) else None
  }

  ghost predicate Ascending(s: seq<nat>) { forall a, b :: 0 <= a < b < |s| ==> s[a] < s[b] }

  lemma NoneAscend()
    ensures Ascending([])
  {
  }

  lemma NothingInFront(s: seq<nat>)
    ensures [] + s == s
  {
  }

  lemma AscendingCons(i: nat, s: seq<nat>)
    requires Ascending(s) && forall j :: j in s ==> i < j
    ensures Ascending([i] + s)
  {
    var all := [i] + s;
    forall a, b | 0 <= a < b < |all| ensures all[a] < all[b] {
      assert all[b] == s[b - 1] && all[b] in s;
      if a > 0 { assert all[a] == s[a - 1]; }
    }
  }

  lemma {:induction false} MatchingIs(lock: Lock, e: Edge, from: nat)
    requires from <= |lock|
    ensures forall i :: i in Matching(lock, e, from) <==> from <= i < |lock| && Matches(lock[i], e)
    ensures Ascending(Matching(lock, e, from))
    decreases |lock| - from
  {
    hide Ascending, Matches;
    NoneAscend();
    if from < |lock| {
      MatchingIs(lock, e, from + 1);
      AscendingCons(from, Matching(lock, e, from + 1));
      NothingInFront(Matching(lock, e, from + 1));
    }
  }

  lemma {:induction false} LocalMatchingIs(lock: Lock, name: string, from: nat)
    requires from <= |lock|
    ensures forall i :: i in LocalMatching(lock, name, from) <==> from <= i < |lock| && IsLocal(lock[i], name)
    ensures Ascending(LocalMatching(lock, name, from))
    decreases |lock| - from
  {
    hide Ascending, IsLocal;
    NoneAscend();
    if from < |lock| {
      LocalMatchingIs(lock, name, from + 1);
      AscendingCons(from, LocalMatching(lock, name, from + 1));
      NothingInFront(LocalMatching(lock, name, from + 1));
    }
  }

  lemma OneElement(s: seq<nat>, i: nat)
    requires Ascending(s)
    ensures s == [i] <==> i in s && forall j :: j in s ==> j == i
  {
    if |s| >= 2 {
      assert s[0] in s && s[1] in s && s[0] < s[1];
    }
  }

  lemma ResolveIff(lock: Lock, edge: string, i: nat)
    ensures Resolve(lock, edge) == Some(i) <==> OnlyMatch(lock, ParseEdge(edge), i)
  {
    var e := ParseEdge(edge);
    var s := Matching(lock, e, 0);
    MatchingIs(lock, e, 0);
    assert forall j: nat :: j in s <==> Named(lock, j, e.name, e.version, e.source);
    OneElement(s, i);
    if |s| == 1 { assert s == [s[0]]; }
  }

  /** What an edge means, over its text. A bare name, a name and a version, and the two with a
      source in parentheses each resolve to the only package with the fields they spell. A third
      part is cut at both ends whatever stands there, so every text is of one of these forms. */
  lemma ResolveSpelled(lock: Lock, name: string, version: string, source: string, rest: string, i: nat)
    requires ' ' !in name && ' ' !in version
    ensures Resolve(lock, name) == Some(i) <==> OnlyNamed(lock, i, name, None, None)
    ensures Resolve(lock, name + " " + version) == Some(i) <==> OnlyNamed(lock, i, name, Some(version), None)
    ensures Resolve(lock, name + " " + (version + " (" + source + ")")) == Some(i) <==>
            OnlyNamed(lock, i, name, Some(version), Some(source))
    ensures Resolve(lock, name + " " + (version + " " + rest)) == Some(i) <==>
            OnlyNamed(lock, i, name, Some(version), Some(if |rest| < 2 then "" else rest[1..|rest| - 1]))
  {
    hide BeforeSpace, Resolve, OnlyNamed;
    NameCutOff(name, "");
    NameCutOff(version, "");
    ResolveIff(lock, name, i);
    VersionedEdge(name, version, version, None);
    ResolveIff(lock, name + " " + version, i);
    var third := version + " (" + source + ")";
    VersionedEdge(name, third, version, Some(source));
    ResolveIff(lock, name + " " + third, i);
    var tail := version + " " + rest;
    NameCutOff(name, tail);
    NameCutOff(version, rest);
    ResolveIff(lock, name + " " + tail, i);
    var cut := if |rest| < 2 then "" else rest[1..|rest| - 1];
    assert Inner(rest) == cut;
    assert ParseEdge(name + " " + tail) == Edge(name, Some(version), Some(cut));
  }

  /** An edge that spells every field of a package resolves to it, if no other package has these
      fields. */
  lemma FullySpelledResolves(lock: Lock, i: nat)
    requires i < |lock| && ' ' !in lock[i].name && ' ' !in lock[i].version && lock[i].source.Some?
    requires Sole(lock, i)
    ensures Resolve(lock, lock[i].name + " " + (lock[i].version + " (" + lock[i].source.value + ")")) == Some(i)
  {
    ResolveSpelled(lock, lock[i].name, lock[i].version, lock[i].source.value, "", i);
  }

  lemma ResolveRootIff(lock: Lock, root: string, i: nat)
    ensures ResolveRoot(lock, root) == Some(i) <==> OnlyLocal(lock, root, i)
  {
    var s := LocalMatching(lock, root, 0);
    LocalMatchingIs(lock, root, 0);
    assert forall j: nat :: j in s <==> LocalNamed(lock, j, root);
    OneElement(s, i);
    if |s| == 1 { assert s == [s[0]]; }
  }

  // ---------- The worklist ----------

  type Key = (string, string, Option<string>)

  function KeyOf(p: Package): Key { (p.name, p.version, p.source) }

  predicate KeySeen(lock: Lock, seen: seq<nat>, key: Key)
    requires forall i :: i in seen ==> i < |lock|
  {
    exists i :: i in seen && KeyOf(lock[i]) == key
  }

  function ResolveAll(lock: Lock, edges: seq<string>): Result<seq<nat>> {
    if edges == [] then Ok([])
    else match Resolve(lock, edges[0])
      case None => Err(BadEdge(edges[0]))
      case Some(i) =>
        match ResolveAll(lock, edges[1..])
        case Err(e) => Err(e)
        case Ok(rest) => Ok([i] + rest)
  }

  function ResolveRoots(lock: Lock, roots: seq<string>): Result<seq<nat>> {
    if roots == [] then Ok([])
    else match ResolveRoot(lock, roots[0])
      case None => Err(BadRoot(roots[0]))
      case Some(i) =>
        match ResolveRoots(lock, roots[1..])
        case Err(e) => Err(e)
        case Ok(rest) => Ok([i] + rest)
  }

  predicate InLock(lock: Lock, s: seq<nat>) { forall k :: 0 <= k < |s| ==> s[k] < |lock| }

  ghost function Unseen(lock: Lock, seen: seq<nat>): set<nat> {
    set i: nat | i < |lock| && i !in seen
  }

  lemma {:induction false} ResolveAllInLock(lock: Lock, edges: seq<string>)
    ensures ResolveAll(lock, edges).Ok? ==> InLock(lock, ResolveAll(lock, edges).value)
  {
    if edges != [] {
      ResolveAllInLock(lock, edges[1..]);
      if Resolve(lock, edges[0]).Some? { ResolveIff(lock, edges[0], Resolve(lock, edges[0]).value); }
    }
  }

  /** The order in which packages are first taken from the pending list. */
  function Work(lock: Lock, pending: seq<nat>, seen: seq<nat>): Result<seq<nat>>
    requires InLock(lock, pending) && InLock(lock, seen)
    decreases Unseen(lock, seen), |pending|
  {
    if pending == [] then Ok(seen)
    else
      var p, rest := pending[|pending| - 1], pending[..|pending| - 1];
      if KeySeen(lock, seen, KeyOf(lock[p])) then Work(lock, rest, seen)
      else
        ResolveAllInLock(lock, lock[p].dependencies);
        match ResolveAll(lock, lock[p].dependencies)
        case Err(e) => Err(e)
        case Ok(next) =>
          assert p in Unseen(lock, seen) && p !in Unseen(lock, seen + [p]);
          assert Unseen(lock, seen + [p]) < Unseen(lock, seen);
          Work(lock, rest + next, seen + [p])
  }

  // ---------- Order ----------

  /** The sort key: an absent source sorts as the empty string. */
  function SourceText(p: Package): string { if p.source.Some? then p.source.value else "" }

  predicate PackageBefore(p: Package, q: Package) {
    if p.name != q.name then Before(p.name, q.name)
    else if p.version != q.version then Before(p.version, q.version)
    else Before(SourceText(p), SourceText(q))
  }

  /** Insertion behind everything that does not sort after it. */
  function Insert(lock: Lock, sorted: seq<nat>, i: nat): seq<nat>
    requires InLock(lock, sorted) && i < |lock|
  {
    if sorted == [] then [i]
    else if PackageBefore(lock[i], lock[sorted[|sorted| - 1]]) then
      Insert(lock, sorted[..|sorted| - 1], i) + [sorted[|sorted| - 1]]
    else sorted + [i]
  }

  lemma {:induction false} InsertInLock(lock: Lock, sorted: seq<nat>, i: nat)
    requires InLock(lock, sorted) && i < |lock|
    ensures InLock(lock, Insert(lock, sorted, i)) && |Insert(lock, sorted, i)| == |sorted| + 1
    ensures forall j :: j in Insert(lock, sorted, i) <==> j in sorted || j == i
  {
    if sorted != [] {
      var front, last := sorted[..|sorted| - 1], sorted[|sorted| - 1];
      assert sorted == front + [last];
      if PackageBefore(lock[i], lock[last]) { InsertInLock(lock, front, i); }
    }
  }

  /** A stable sort. */
  function Sort(lock: Lock, order: seq<nat>): (sorted: seq<nat>)
    requires InLock(lock, order)
    ensures InLock(lock, sorted)
  {
    if order == [] then []
    else
      var front := Sort(lock, order[..|order| - 1]);
      InsertInLock(lock, front, order[|order| - 1]);
      Insert(lock, front, order[|order| - 1])
  }

  function Tables(lock: Lock, indices: seq<nat>): seq<Package>
    requires InLock(lock, indices)
  {
    seq(|indices|, k requires 0 <= k < |indices| => lock[indices[k]])
  }

  /** `closure_packages`, as indices. */
  function Closure(lock: Lock, roots: seq<string>): (r: Result<seq<nat>>)
    ensures r.Ok? ==> InLock(lock, r.value)
  {
    if lock == [] then Err(NoPackages)
    else match ResolveRoots(lock, roots)
      case Err(e) => Err(e)
      case Ok(start) =>
        RootsInLock(lock, roots);
        match Work(lock, start, [])
        case Err(e) => Err(e)
        case Ok(order) =>
          WorkInLock(lock, start, []);
          Ok(Sort(lock, order))
  }

  lemma {:induction false} RootsInLock(lock: Lock, roots: seq<string>)
    ensures ResolveRoots(lock, roots).Ok? ==> InLock(lock, ResolveRoots(lock, roots).value)
  {
    if roots != [] {
      RootsInLock(lock, roots[1..]);
      if ResolveRoot(lock, roots[0]).Some? { ResolveRootIff(lock, roots[0], ResolveRoot(lock, roots[0]).value); }
    }
  }

  lemma {:induction false} WorkInLock(lock: Lock, pending: seq<nat>, seen: seq<nat>)
    requires InLock(lock, pending) && InLock(lock, seen)
    ensures Work(lock, pending, seen).Ok? ==> InLock(lock, Work(lock, pending, seen).value)
    decreases Unseen(lock, seen), |pending|
  {
    if pending != [] {
      var p, rest := pending[|pending| - 1], pending[..|pending| - 1];
      if KeySeen(lock, seen, KeyOf(lock[p])) {
        WorkInLock(lock, rest, seen);
      } else if ResolveAll(lock, lock[p].dependencies).Ok? {
        ResolveAllInLock(lock, lock[p].dependencies);
        assert p in Unseen(lock, seen) && p !in Unseen(lock, seen + [p]);
        assert Unseen(lock, seen + [p]) < Unseen(lock, seen);
        WorkInLock(lock, rest + ResolveAll(lock, lock[p].dependencies).value, seen + [p]);
      }
    }
  }

  /** The call as written: collect the roots, run the worklist, sort. */
  method ClosurePackages(lock: Lock, roots: seq<string>) returns (r: Result<seq<nat>>)
    ensures r == Closure(lock, roots)
  {
    hide Work, KeySeen, ResolveAll, ResolveRoot, Sort, Unseen;
    if lock == [] { return Err(NoPackages); }
    var pending: seq<nat> := [];
    var next := 0;
    ghost var all := ResolveRoots(lock, roots);
    assert roots[0..] == roots && (all.Ok? ==> [] + all.value == all.value);
    while next < |roots|
      invariant 0 <= next <= |roots|
      invariant var rest := ResolveRoots(lock, roots[next..]);
        all == (if rest.Err? then rest else Ok(pending + rest.value))
    {
      var local := ResolveRoot(lock, roots[next]);
      assert roots[next..][1..] == roots[next + 1..];
      if local.None? { return Err(BadRoot(roots[next])); }
      ghost var rest := ResolveRoots(lock, roots[next + 1..]);
      assert rest.Ok? ==> pending + ([local.value] + rest.value) == (pending + [local.value]) + rest.value;
      pending := pending + [local.value];
      next := next + 1;
    }
    assert pending + [] == pending;
    RootsInLock(lock, roots);
    ghost var start := pending;
    var seen: seq<nat> := [];
    while pending != []
      invariant InLock(lock, pending) && InLock(lock, seen)
      invariant Work(lock, pending, seen) == Work(lock, start, [])
      decreases Unseen(lock, seen), |pending|
    {
      var p := pending[|pending| - 1];
      assert pending == pending[..|pending| - 1] + [p];
      pending := pending[..|pending| - 1];
      WorkStep(lock, pending, p, seen);
      if KeySeen(lock, seen, KeyOf(lock[p])) { continue; }
      seen := seen + [p];
      var edges := ResolveAll(lock, lock[p].dependencies);
      if edges.Err? { return Err(edges.error); }
      pending := pending + edges.value;
    }
    WorkDone(lock, seen);
    WorkInLock(lock, start, []);
    return Ok(Sort(lock, seen));
  }

  // ---------- Reachability ----------

  /** `i` has an edge that resolves to `j`. */
  ghost predicate Depends(lock: Lock, i: nat, j: nat) {
    i < |lock| && exists edge :: edge in lock[i].dependencies && Resolve(lock, edge) == Some(j)
  }

  ghost predicate Chain(lock: Lock, c: seq<nat>) {
    c != [] && forall k :: 0 <= k < |c| - 1 ==> Depends(lock, c[k], c[k + 1])
  }

  ghost predicate StartsAtRoot(lock: Lock, roots: seq<string>, i: nat) {
    exists root :: root in roots && ResolveRoot(lock, root) == Some(i)
  }

  ghost predicate ReachedBy(lock: Lock, roots: seq<string>, c: seq<nat>, i: nat) {
    Chain(lock, c) && StartsAtRoot(lock, roots, c[0]) && c[|c| - 1] == i
  }

  /** `i` can be reached from some root along uniquely resolved edges. */
  ghost predicate Reached(lock: Lock, roots: seq<string>, i: nat) {
    exists c :: ReachedBy(lock, roots, c, i)
  }

  ghost predicate RootsResolve(lock: Lock, roots: seq<string>) {
    forall root :: root in roots ==> ResolveRoot(lock, root).Some?
  }

  ghost predicate EdgesResolve(lock: Lock, i: nat) {
    i < |lock| && forall edge :: edge in lock[i].dependencies ==> Resolve(lock, edge).Some?
  }

  lemma ReachedStep(lock: Lock, roots: seq<string>, i: nat, j: nat)
    requires Reached(lock, roots, i) && Depends(lock, i, j)
    ensures Reached(lock, roots, j)
  {
    var c :| ReachedBy(lock, roots, c, i);
    assert ReachedBy(lock, roots, c + [j], j);
  }

  lemma RootReached(lock: Lock, roots: seq<string>, i: nat)
    requires StartsAtRoot(lock, roots, i)
    ensures Reached(lock, roots, i)
  {
    assert ReachedBy(lock, roots, [i], i);
  }

  ghost predicate SameFields(p: Package, q: Package) {
    p.name == q.name && p.version == q.version && p.source == q.source
  }

  /** No other package has the name, version and source of `i`. */
  ghost predicate Sole(lock: Lock, i: nat) {
    i < |lock| && forall j: nat :: j < |lock| && SameFields(lock[j], lock[i]) ==> j == i
  }

  /** Two packages with the same key are never reachable: whatever resolves to one of them would
      match the other. So remembering keys merges nothing. */
  lemma NeverMerged(lock: Lock, roots: seq<string>, i: nat)
    requires Reached(lock, roots, i)
    ensures Sole(lock, i)
  {
    var c :| ReachedBy(lock, roots, c, i);
    if |c| == 1 {
      var root :| root in roots && ResolveRoot(lock, root) == Some(i);
      ResolveRootIff(lock, root, i);
      assert forall j: nat :: j < |lock| && SameFields(lock[j], lock[i]) ==> LocalNamed(lock, j, root);
    } else {
      assert Depends(lock, c[|c| - 2], c[|c| - 2 + 1]);
      var edge :| edge in lock[c[|c| - 2]].dependencies && Resolve(lock, edge) == Some(i);
      ResolveIff(lock, edge, i);
      var e := ParseEdge(edge);
      assert forall j: nat :: j < |lock| && SameFields(lock[j], lock[i]) ==>
        Named(lock, j, e.name, e.version, e.source);
    }
  }

  lemma {:induction false} ResolveAllIs(lock: Lock, edges: seq<string>)
    ensures match ResolveAll(lock, edges)
      case Ok(next) =>
        (forall edge :: edge in edges ==> Resolve(lock, edge).Some? && Resolve(lock, edge).value in next)
        && (forall j :: j in next ==> exists edge :: edge in edges && Resolve(lock, edge) == Some(j))
      case Err(e) => e.BadEdge? && e.edge in edges && Resolve(lock, e.edge).None?
  {
    if edges != [] { ResolveAllIs(lock, edges[1..]); }
  }

  lemma {:induction false} ResolveRootsIs(lock: Lock, roots: seq<string>)
    ensures match ResolveRoots(lock, roots)
      case Ok(start) =>
        (forall root :: root in roots ==> ResolveRoot(lock, root).Some? && ResolveRoot(lock, root).value in start)
        && (forall j :: j in start ==> exists root :: root in roots && ResolveRoot(lock, root) == Some(j))
      case Err(e) => e.BadRoot? && e.root in roots && ResolveRoot(lock, e.root).None?
  {
    if roots != [] { ResolveRootsIs(lock, roots[1..]); }
  }

  // ---------- The worklist is exact ----------

  ghost predicate Distinct(s: seq<nat>) { forall a, b :: 0 <= a < b < |s| ==> s[a] != s[b] }

  ghost predicate AllReached(lock: Lock, roots: seq<string>, s: seq<nat>) {
    forall i :: i in s ==> Reached(lock, roots, i)
  }

  /** Everything taken so far has its edges resolved, to packages taken or waiting. */
  ghost predicate Expanded(lock: Lock, seen: seq<nat>, pending: seq<nat>) {
    && (forall i :: i in seen ==> EdgesResolve(lock, i))
    && (forall i, j :: i in seen && Depends(lock, i, j) ==> j in seen || j in pending)
  }

  ghost predicate CoversRoots(lock: Lock, roots: seq<string>, seen: seq<nat>, pending: seq<nat>) {
    forall i :: StartsAtRoot(lock, roots, i) ==> i in seen || i in pending
  }

  ghost predicate WorkInv(lock: Lock, roots: seq<string>, pending: seq<nat>, seen: seq<nat>) {
    && InLock(lock, pending) && InLock(lock, seen) && Distinct(seen)
    && AllReached(lock, roots, pending) && AllReached(lock, roots, seen)
    && Expanded(lock, seen, pending) && CoversRoots(lock, roots, seen, pending)
  }

  /** What a finished worklist amounts to. */
  ghost predicate ExactOrder(lock: Lock, roots: seq<string>, order: seq<nat>) {
    && InLock(lock, order) && Distinct(order)
    && (forall i :: i in order <==> Reached(lock, roots, i))
    && (forall i :: i in order ==> EdgesResolve(lock, i))
  }

  ghost predicate UnresolvedEdge(lock: Lock, roots: seq<string>, error: Error) {
    error.BadEdge? && Resolve(lock, error.edge).None?
    && exists i: nat :: i < |lock| && Reached(lock, roots, i) && error.edge in lock[i].dependencies
  }

  lemma {:induction false} ChainStays(lock: Lock, roots: seq<string>, seen: seq<nat>, c: seq<nat>)
    requires Expanded(lock, seen, []) && Chain(lock, c) && c[0] in seen
    ensures c[|c| - 1] in seen
    decreases |c|
  {
    if |c| > 1 {
      var rest := c[1..];
      assert Depends(lock, c[0], c[0 + 1]);
      forall k | 0 <= k < |rest| - 1 ensures Depends(lock, rest[k], rest[k + 1]) {
        assert Depends(lock, c[k + 1], c[k + 1 + 1]);
      }
      ChainStays(lock, roots, seen, c[1..]);
    }
  }

  lemma FinishedIsExact(lock: Lock, roots: seq<string>, seen: seq<nat>)
    requires WorkInv(lock, roots, [], seen)
    ensures ExactOrder(lock, roots, seen)
  {
    forall i | Reached(lock, roots, i) ensures i in seen {
      var c :| ReachedBy(lock, roots, c, i);
      ChainStays(lock, roots, seen, c);
    }
  }

  lemma SkipKeepsInv(lock: Lock, roots: seq<string>, pending: seq<nat>, seen: seq<nat>)
    requires WorkInv(lock, roots, pending, seen) && pending != []
    requires KeySeen(lock, seen, KeyOf(lock[pending[|pending| - 1]]))
    ensures WorkInv(lock, roots, pending[..|pending| - 1], seen)
  {
    hide KeySeen, Reached, Depends, StartsAtRoot, EdgesResolve;
    var p, rest := pending[|pending| - 1], pending[..|pending| - 1];
    assert pending == rest + [p] && p in pending;
    KeySeenTaken(lock, roots, seen, p);
  }

  lemma KeySeenTaken(lock: Lock, roots: seq<string>, seen: seq<nat>, p: nat)
    requires InLock(lock, seen) && p < |lock| && Reached(lock, roots, p) && KeySeen(lock, seen, KeyOf(lock[p]))
    ensures p in seen
  {
    hide Reached;
    NeverMerged(lock, roots, p);
    var i :| i in seen && KeyOf(lock[i]) == KeyOf(lock[p]);
    assert SameFields(lock[i], lock[p]) && i == p;
  }

  lemma TakeKeepsInv(lock: Lock, roots: seq<string>, pending: seq<nat>, seen: seq<nat>, next: seq<nat>)
    requires WorkInv(lock, roots, pending, seen) && pending != []
    requires !KeySeen(lock, seen, KeyOf(lock[pending[|pending| - 1]]))
    requires ResolveAll(lock, lock[pending[|pending| - 1]].dependencies) == Ok(next)
    ensures WorkInv(lock, roots, pending[..|pending| - 1] + next, seen + [pending[|pending| - 1]])
  {
    hide Resolve, ResolveAll;
    var p, rest := pending[|pending| - 1], pending[..|pending| - 1];
    assert pending == rest + [p] && p in pending;
    ResolveAllIs(lock, lock[p].dependencies);
    ResolveAllInLock(lock, lock[p].dependencies);
    assert p !in seen;
    forall j | j in next ensures Reached(lock, roots, j) && Depends(lock, p, j) {
      ReachedStep(lock, roots, p, j);
    }
  }

  lemma {:induction false} WorkIsExact(lock: Lock, roots: seq<string>, pending: seq<nat>, seen: seq<nat>)
    requires WorkInv(lock, roots, pending, seen)
    ensures match Work(lock, pending, seen)
      case Ok(order) => ExactOrder(lock, roots, order)
      case Err(e) => UnresolvedEdge(lock, roots, e)
    decreases Unseen(lock, seen), |pending|
  {
    hide Resolve, ResolveAll, WorkInv, Reached, ExactOrder;
    if pending == [] {
      FinishedIsExact(lock, roots, seen);
    } else {
      WorkInvLocks(lock, roots, pending, seen);
      var p, rest := pending[|pending| - 1], pending[..|pending| - 1];
      if KeySeen(lock, seen, KeyOf(lock[p])) {
        SkipKeepsInv(lock, roots, pending, seen);
        WorkIsExact(lock, roots, rest, seen);
      } else {
        ResolveAllIs(lock, lock[p].dependencies);
        match ResolveAll(lock, lock[p].dependencies) {
          case Err(e) =>
          case Ok(next) =>
            TakeKeepsInv(lock, roots, pending, seen, next);
            ResolveAllInLock(lock, lock[p].dependencies);
            assert p in Unseen(lock, seen) && p !in Unseen(lock, seen + [p]);
            assert Unseen(lock, seen + [p]) < Unseen(lock, seen);
            WorkIsExact(lock, roots, rest + next, seen + [p]);
        }
      }
    }
  }

  lemma WorkInvLocks(lock: Lock, roots: seq<string>, pending: seq<nat>, seen: seq<nat>)
    requires WorkInv(lock, roots, pending, seen)
    ensures InLock(lock, pending) && InLock(lock, seen)
    ensures pending != [] ==> Reached(lock, roots, pending[|pending| - 1])
  {
    assert pending != [] ==> pending[|pending| - 1] in pending;
  }

  // ---------- Sorting ----------

  lemma PackageOrder(p: Package, q: Package)
    ensures !(PackageBefore(p, q) && PackageBefore(q, p))
    ensures !PackageBefore(p, q) && !PackageBefore(q, p) <==>
            p.name == q.name && p.version == q.version && SourceText(p) == SourceText(q)
  {
    BeforeTotal(p.name, q.name);
    BeforeTotal(p.version, q.version);
    BeforeTotal(SourceText(p), SourceText(q));
  }

  /** Not sorting after is transitive. */
  lemma PackageOrderTransitive(p: Package, q: Package, r: Package)
    requires !PackageBefore(q, p) && !PackageBefore(r, q)
    ensures !PackageBefore(r, p)
  {
    hide Before;
    TextOrderTransitive(p.name, q.name, r.name);
    TextOrderTransitive(p.version, q.version, r.version);
    TextOrderTransitive(SourceText(p), SourceText(q), SourceText(r));
    BeforeTotal(p.name, q.name);
    BeforeTotal(q.name, r.name);
    BeforeTotal(p.version, q.version);
    BeforeTotal(q.version, r.version);
  }

  ghost predicate Sorted(lock: Lock, s: seq<nat>)
    requires InLock(lock, s)
  {
    forall a, b :: 0 <= a < b < |s| ==> !PackageBefore(lock[s[b]], lock[s[a]])
  }

  lemma {:induction false} InsertKeepsSorted(lock: Lock, s: seq<nat>, i: nat)
    requires InLock(lock, s) && i < |lock| && Sorted(lock, s) && Distinct(s) && i !in s
    ensures InLock(lock, Insert(lock, s, i)) && Sorted(lock, Insert(lock, s, i)) && Distinct(Insert(lock, s, i))
    ensures forall j :: j in Insert(lock, s, i) <==> j in s || j == i
  {
    hide PackageBefore;
    InsertInLock(lock, s, i);
    if s != [] {
      var front, last := s[..|s| - 1], s[|s| - 1];
      assert s == front + [last];
      if PackageBefore(lock[i], lock[last]) {
        InsertKeepsSorted(lock, front, i);
        var r := Insert(lock, front, i);
        forall a | 0 <= a < |r| ensures !PackageBefore(lock[last], lock[r[a]]) && r[a] != last {
          assert r[a] in r;
          if r[a] == i {
            PackageOrder(lock[i], lock[last]);
          } else {
            var k :| 0 <= k < |front| && front[k] == r[a];
            assert s[k] == r[a];
          }
        }
      } else {
        forall a | 0 <= a < |s| ensures !PackageBefore(lock[i], lock[s[a]]) {
          if a < |s| - 1 { PackageOrderTransitive(lock[s[a]], lock[last], lock[i]); }
        }
      }
    }
  }

  lemma {:induction false} SortIs(lock: Lock, order: seq<nat>)
    requires InLock(lock, order) && Distinct(order)
    ensures Sorted(lock, Sort(lock, order)) && Distinct(Sort(lock, order))
    ensures forall j :: j in Sort(lock, order) <==> j in order
  {
    if order != [] {
      var front, last := order[..|order| - 1], order[|order| - 1];
      assert order == front + [last];
      SortIs(lock, front);
      InsertKeepsSorted(lock, Sort(lock, front), last);
    }
  }

  /** The sort order, over the fields: by name, then by version, then by source, where an absent
      source counts as the empty text. */
  lemma PackageBeforeIff(p: Package, q: Package)
    ensures PackageBefore(p, q) <==>
            || Before(p.name, q.name)
            || (p.name == q.name && Before(p.version, q.version))
            || (p.name == q.name && p.version == q.version && q.source.Some? && q.source != Some("")
                && (p.source.None? || Before(p.source.value, q.source.value)))
    ensures SameSortKey(p, q) <==>
            p.name == q.name && p.version == q.version
            && (p.source == q.source || (p.source in {None, Some("")} && q.source in {None, Some("")}))
  {
    BeforeIrreflexive(p.name);
    BeforeIrreflexive(p.version);
  }

  predicate SameSortKey(p: Package, q: Package) {
    p.name == q.name && p.version == q.version && SourceText(p) == SourceText(q)
  }

  ghost predicate Precedes(s: seq<nat>, i: nat, j: nat) {
    exists a, b :: 0 <= a < b < |s| && s[a] == i && s[b] == j
  }

  lemma CutBeforeLast(front: seq<nat>, last: nat, i: nat, k: nat)
    requires k <= |front|
    ensures front[..k] + [i] + front[k..] + [last] == (front + [last])[..k] + [i] + (front + [last])[k..]
  {
  }

  lemma {:induction false} InsertAt(lock: Lock, s: seq<nat>, i: nat) returns (k: nat)
    requires InLock(lock, s) && i < |lock|
    ensures k <= |s| && Insert(lock, s, i) == s[..k] + [i] + s[k..]
    ensures forall m :: k <= m < |s| ==> PackageBefore(lock[i], lock[s[m]])
  {
    hide PackageBefore;
    k := |s|;
    if s != [] && PackageBefore(lock[i], lock[s[|s| - 1]]) {
      var front, last := s[..|s| - 1], s[|s| - 1];
      assert s == front + [last];
      k := InsertAt(lock, front, i);
      CutBeforeLast(front, last, i, k);
    }
  }

  lemma Inserted(s: seq<nat>, i: nat, k: nat, m: nat)
    requires k <= |s| && m < |s|
    ensures var r := s[..k] + [i] + s[k..]; (if m < k then r[m] else r[m + 1]) == s[m] && r[k] == i
  {
  }

  /** Insertion keeps the order of what is there, and puts ties in front. */
  lemma InsertStable(lock: Lock, s: seq<nat>, i: nat)
    requires InLock(lock, s) && i < |lock|
    ensures forall x, y :: Precedes(s, x, y) ==> Precedes(Insert(lock, s, i), x, y)
    ensures forall x :: x in s && SameSortKey(lock[x], lock[i]) ==> Precedes(Insert(lock, s, i), x, i)
  {
    hide PackageBefore;
    var r := Insert(lock, s, i);
    var k := InsertAt(lock, s, i);
    forall x, y | Precedes(s, x, y) ensures Precedes(r, x, y) {
      var a, b :| 0 <= a < b < |s| && s[a] == x && s[b] == y;
      Inserted(s, i, k, a);
      Inserted(s, i, k, b);
    }
    forall x | x in s && SameSortKey(lock[x], lock[i]) ensures Precedes(r, x, i) {
      var m :| 0 <= m < |s| && s[m] == x;
      PackageOrder(lock[i], lock[x]);
      Inserted(s, i, k, m);
    }
  }

  /** Packages that tie keep the order they came in. */
  lemma {:induction false} SortStable(lock: Lock, order: seq<nat>, i: nat, j: nat)
    requires InLock(lock, order) && Distinct(order) && Precedes(order, i, j) && SameSortKey(lock[i], lock[j])
    ensures Precedes(Sort(lock, order), i, j)
  {
    hide Insert, SameSortKey;
    var front, last := order[..|order| - 1], order[|order| - 1];
    assert order == front + [last];
    var a, b :| 0 <= a < b < |order| && order[a] == i && order[b] == j;
    SortIs(lock, front);
    InsertStable(lock, Sort(lock, front), last);
    assert front[a] == i;
    if b < |order| - 1 {
      assert front[b] == j;
      SortStable(lock, front, i, j);
    }
  }

  /** Sorted sequences of the same packages whose ties come in the same order are equal. */
  lemma {:induction false} SortedUnique(lock: Lock, s: seq<nat>, t: seq<nat>)
    requires InLock(lock, s) && InLock(lock, t) && Sorted(lock, s) && Sorted(lock, t) && Distinct(s) && Distinct(t)
    requires forall j :: j in s <==> j in t
    requires SameTies(lock, s, t)
    ensures s == t
    decreases |s|
  {
    hide PackageBefore, SameSortKey;
    assert s == [] || s[0] in s;
    assert t == [] || t[0] in t;
    if s != [] {
      if s[0] != t[0] { FirstsTie(lock, s, t); }
      assert s == [s[0]] + s[1..] && t == [t[0]] + t[1..];
      forall j ensures j in s[1..] <==> j in t[1..] {
        assert j in s <==> j == s[0] || j in s[1..];
        assert j in t <==> j == t[0] || j in t[1..];
        assert s[0] !in s[1..] && t[0] !in t[1..];
      }
      TailTies(lock, s, t);
      SortedUnique(lock, s[1..], t[1..]);
    }
  }

  /** Whatever ties in `s` comes in the same order in `t`. */
  ghost predicate SameTies(lock: Lock, s: seq<nat>, t: seq<nat>)
    requires InLock(lock, s)
  {
    forall i: nat, j: nat :: Precedes(s, i, j) && SameSortKey(lock[i], lock[j]) ==> Precedes(t, i, j)
  }

  lemma TailTies(lock: Lock, s: seq<nat>, t: seq<nat>)
    requires InLock(lock, s) && s != [] && t != [] && s[0] == t[0] && Distinct(s) && Distinct(t) && SameTies(lock, s, t)
    ensures InLock(lock, s[1..]) && SameTies(lock, s[1..], t[1..])
  {
    hide SameSortKey;
    forall i: nat, j: nat | Precedes(s[1..], i, j) && SameSortKey(lock[i], lock[j]) ensures Precedes(t[1..], i, j) {
      var a, b :| 0 <= a < b < |s[1..]| && s[1..][a] == i && s[1..][b] == j;
      assert s[a + 1] == i && s[b + 1] == j && Precedes(s, i, j);
      var c, d :| 0 <= c < d < |t| && t[c] == i && t[d] == j;
      assert t[c] != t[0];
      assert t[1..][c - 1] == i && t[1..][d - 1] == j;
    }
  }

  lemma FirstsTie(lock: Lock, s: seq<nat>, t: seq<nat>)
    requires InLock(lock, s) && InLock(lock, t) && Sorted(lock, s) && Sorted(lock, t) && s != [] && t != []
    requires Distinct(t) && s[0] in t && t[0] in s && s[0] != t[0]
    ensures SameSortKey(lock[s[0]], lock[t[0]]) && Precedes(s, s[0], t[0]) && !Precedes(t, s[0], t[0])
  {
    hide PackageBefore;
    var a :| 0 <= a < |t| && t[a] == s[0];
    var b :| 0 <= b < |s| && s[b] == t[0];
    PackageOrder(lock[s[0]], lock[t[0]]);
    assert Precedes(t, t[0], s[0]);
    OneWay(t, t[0], s[0]);
  }

  lemma OneWay(s: seq<nat>, i: nat, j: nat)
    requires Distinct(s) && Precedes(s, i, j)
    ensures i != j && i in s && j in s && !Precedes(s, j, i)
  {
  }

  // ---------- Results ----------

  ghost predicate AllResolve(lock: Lock, roots: seq<string>) {
    lock != [] && RootsResolve(lock, roots) && forall i: nat :: Reached(lock, roots, i) ==> EdgesResolve(lock, i)
  }

  /** The closure succeeds exactly when every root and every edge of every reachable package
      resolves to one package; the result is the reachable packages, each once, in order. */
  lemma ClosureIsExact(lock: Lock, roots: seq<string>)
    ensures Closure(lock, roots).Ok? <==> AllResolve(lock, roots)
    ensures Closure(lock, roots).Ok? ==>
      var list := Closure(lock, roots).value;
      Sorted(lock, list) && Distinct(list) && forall i :: i in list <==> Reached(lock, roots, i)
  {
    hide Work, Sort, Resolve, ResolveRoot, ResolveRoots, WorkInv;
    if lock != [] {
      ResolveRootsIs(lock, roots);
      var started := ResolveRoots(lock, roots);
      if started.Ok? {
        RootsInLock(lock, roots);
        StartInv(lock, roots, started.value);
        WorkIsExact(lock, roots, started.value, []);
        var worked := Work(lock, started.value, []);
        if worked.Ok? { SortIs(lock, worked.value); }
      }
    }
  }

  lemma StartInv(lock: Lock, roots: seq<string>, start: seq<nat>)
    requires ResolveRoots(lock, roots) == Ok(start)
    ensures WorkInv(lock, roots, start, [])
  {
    hide Resolve, ResolveRoot, ResolveRoots;
    assert InLock(lock, start) by { RootsInLock(lock, roots); }
    ResolveRootsIs(lock, roots);
    forall j | j in start ensures Reached(lock, roots, j) { RootReached(lock, roots, j); }
  }

  lemma ReachedMonotone(lock: Lock, roots: seq<string>, more: seq<string>, i: nat)
    requires (forall root :: root in roots ==> root in more) && Reached(lock, roots, i)
    ensures Reached(lock, more, i)
  {
    var c :| ReachedBy(lock, roots, c, i);
    assert ReachedBy(lock, more, c, i);
  }

  /** More roots, more packages. */
  lemma ClosureMonotone(lock: Lock, roots: seq<string>, more: seq<string>)
    requires forall root :: root in roots ==> root in more
    requires Closure(lock, more).Ok?
    ensures Closure(lock, roots).Ok?
    ensures forall i :: i in Closure(lock, roots).value ==> i in Closure(lock, more).value
  {
    hide Closure, Reached;
    ClosureIsExact(lock, roots);
    ClosureIsExact(lock, more);
    forall i: nat | Reached(lock, roots, i) ensures Reached(lock, more, i) { ReachedMonotone(lock, roots, more, i); }
  }

  // ---------- The order of the roots ----------

  /** The order in which the call takes packages. */
  ghost function Taken(lock: Lock, roots: seq<string>): (order: seq<nat>)
    requires Closure(lock, roots).Ok?
  {
    RootsInLock(lock, roots);
    Work(lock, ResolveRoots(lock, roots).value, []).value
  }

  lemma TakenIs(lock: Lock, roots: seq<string>)
    requires Closure(lock, roots).Ok?
    ensures InLock(lock, Taken(lock, roots)) && Distinct(Taken(lock, roots))
    ensures forall i :: i in Taken(lock, roots) <==> Reached(lock, roots, i)
    ensures Closure(lock, roots).value == Sort(lock, Taken(lock, roots))
  {
    hide Work, Sort, Resolve, ResolveRoot, ResolveRoots, WorkInv;
    RootsInLock(lock, roots);
    var start := ResolveRoots(lock, roots).value;
    StartInv(lock, roots, start);
    WorkIsExact(lock, roots, start, []);
  }

  /** The sort cannot tell the two apart. */
  predicate Tie(lock: Lock, i: nat, j: nat) {
    i < |lock| && j < |lock| && SameSortKey(lock[i], lock[j])
  }

  /** Different packages with the same name, version and source text. Those of two different keys
      are one without a source and one whose source is the empty text. */
  ghost predicate TieReached(lock: Lock, roots: seq<string>) {
    exists i: nat, j: nat :: i != j && Reached(lock, roots, i) && Reached(lock, roots, j)
                   && Tie(lock, i, j)
  }

  /** No two keys of the lockfile tie. */
  ghost predicate NoTies(lock: Lock) {
    forall i, j :: 0 <= i < |lock| && 0 <= j < |lock| && SameSortKey(lock[i], lock[j]) ==>
      lock[i].source == lock[j].source
  }

  lemma NoTiesReached(lock: Lock, roots: seq<string>)
    requires NoTies(lock)
    ensures !TieReached(lock, roots)
  {
    hide Reached;
    forall i: nat, j: nat | i != j && Reached(lock, roots, i) && Reached(lock, roots, j) && i < |lock| && j < |lock|
      ensures !SameSortKey(lock[i], lock[j])
    {
      NeverMerged(lock, roots, i);
    }
  }

  lemma TiesInOrder(lock: Lock, roots: seq<string>, i: nat, j: nat)
    requires Closure(lock, roots).Ok? && i < |lock| && j < |lock| && SameSortKey(lock[i], lock[j])
    ensures Precedes(Taken(lock, roots), i, j) <==> Precedes(Closure(lock, roots).value, i, j)
  {
    hide Closure, Taken, Sorted, Sort;
    TakenIs(lock, roots);
    ClosureIsExact(lock, roots);
    var order, list := Taken(lock, roots), Closure(lock, roots).value;
    if Precedes(order, i, j) { SortStable(lock, order, i, j); }
    if Precedes(list, i, j) {
      OneWay(list, i, j);
      OneOrOther(order, i, j);
      if Precedes(order, j, i) { SortStable(lock, order, j, i); }
    }
  }

  lemma OneOrOther(s: seq<nat>, i: nat, j: nat)
    requires i in s && j in s && i != j
    ensures Precedes(s, i, j) || Precedes(s, j, i)
  {
    var a :| 0 <= a < |s| && s[a] == i;
    var b :| 0 <= b < |s| && s[b] == j;
  }

  /** Root lists of the same roots give the same list exactly when packages that tie are taken in
      the same order. */
  lemma SameListIff(lock: Lock, roots: seq<string>, others: seq<string>)
    requires Closure(lock, roots).Ok? && Closure(lock, others).Ok?
    requires forall root :: root in roots <==> root in others
    ensures Closure(lock, roots) == Closure(lock, others) <==>
            forall i: nat, j: nat :: Tie(lock, i, j) && Precedes(Taken(lock, roots), i, j) ==>
              Precedes(Taken(lock, others), i, j)
  {
    hide Closure, Taken, Reached, SameSortKey, Sorted, Precedes;
    var s, t := Closure(lock, roots).value, Closure(lock, others).value;
    ClosureIsExact(lock, roots);
    ClosureIsExact(lock, others);
    SameReached(lock, roots, others);
    forall i: nat, j: nat | i < |lock| && j < |lock| && SameSortKey(lock[i], lock[j])
      ensures Precedes(Taken(lock, roots), i, j) <==> Precedes(s, i, j)
      ensures Precedes(Taken(lock, others), i, j) <==> Precedes(t, i, j)
    {
      TiesInOrder(lock, roots, i, j);
      TiesInOrder(lock, others, i, j);
    }
    forall i: nat, j: nat | Precedes(s, i, j) ensures i in s && j in s { OneWay(s, i, j); }
    if SameTies(lock, s, t) { SortedUnique(lock, s, t); }
  }

  lemma SameReached(lock: Lock, roots: seq<string>, others: seq<string>)
    requires forall root :: root in roots <==> root in others
    ensures forall i: nat :: Reached(lock, roots, i) <==> Reached(lock, others, i)
  {
    hide Reached;
    forall i: nat | Reached(lock, roots, i)
      ensures Reached(lock, others, i)
    {
      ReachedMonotone(lock, roots, others, i);
    }
    forall i: nat | Reached(lock, others, i)
      ensures Reached(lock, roots, i)
    {
      ReachedMonotone(lock, others, roots, i);
    }
  }

  /** Order and repetition of the roots do not matter: not for success, not for which packages are
      listed, and, unless two packages that tie are reached, not for the list itself. */
  lemma RootOrderIrrelevant(lock: Lock, roots: seq<string>, others: seq<string>)
    requires forall root :: root in roots <==> root in others
    ensures Closure(lock, roots).Ok? <==> Closure(lock, others).Ok?
    ensures Closure(lock, roots).Ok? ==>
      forall i :: i in Closure(lock, roots).value <==> i in Closure(lock, others).value
    ensures Closure(lock, roots).Ok? && (NoTies(lock) || !TieReached(lock, roots)) ==>
      Closure(lock, roots) == Closure(lock, others)
  {
    hide Closure, Reached, Sorted, NoTies, SameSortKey, Taken;
    if Closure(lock, roots).Ok? { ClosureMonotone(lock, others, roots); }
    if Closure(lock, others).Ok? { ClosureMonotone(lock, roots, others); }
    if NoTies(lock) { NoTiesReached(lock, roots); }
    if Closure(lock, roots).Ok? && !TieReached(lock, roots) {
      TakenIs(lock, roots);
      forall i: nat, j: nat | Precedes(Taken(lock, roots), i, j)
        ensures i != j && Reached(lock, roots, i) && Reached(lock, roots, j)
      {
        OneWay(Taken(lock, roots), i, j);
      }
      SameListIff(lock, roots, others);
    }
  }

  /** One turn of the worklist. */
  lemma WorkStep(lock: Lock, rest: seq<nat>, p: nat, seen: seq<nat>)
    requires InLock(lock, rest) && p < |lock| && InLock(lock, seen)
    ensures InLock(lock, rest + [p]) && InLock(lock, seen + [p])
    ensures KeySeen(lock, seen, KeyOf(lock[p])) ==> Work(lock, rest + [p], seen) == Work(lock, rest, seen)
    ensures !KeySeen(lock, seen, KeyOf(lock[p])) ==> Unseen(lock, seen + [p]) < Unseen(lock, seen)
    ensures var edges := ResolveAll(lock, lock[p].dependencies);
      !KeySeen(lock, seen, KeyOf(lock[p])) ==>
        && (edges.Err? ==> Work(lock, rest + [p], seen) == Err(edges.error))
        && (edges.Ok? ==>
              InLock(lock, edges.value) && Work(lock, rest + [p], seen) == Work(lock, rest + edges.value, seen + [p]))
  {
    hide KeySeen, ResolveAll;
    var pending := rest + [p];
    assert pending[|pending| - 1] == p && pending[..|pending| - 1] == rest;
    ResolveAllInLock(lock, lock[p].dependencies);
    if !KeySeen(lock, seen, KeyOf(lock[p])) { UnseenShrinks(lock, seen, p); }
  }

  lemma UnseenShrinks(lock: Lock, seen: seq<nat>, p: nat)
    requires p < |lock| && InLock(lock, seen) && !KeySeen(lock, seen, KeyOf(lock[p]))
    ensures Unseen(lock, seen + [p]) < Unseen(lock, seen)
  {
    assert p in Unseen(lock, seen) && p !in Unseen(lock, seen + [p]);
  }

  /** The list is taken from its end, so what was there before waits until the rest is finished. */
  lemma {:induction false} WorkSplit(lock: Lock, waiting: seq<nat>, pending: seq<nat>, seen: seq<nat>)
    requires InLock(lock, waiting) && InLock(lock, pending) && InLock(lock, seen)
    ensures match Work(lock, pending, seen)
      case Err(e) => Work(lock, waiting + pending, seen) == Err(e)
      case Ok(mid) => InLock(lock, mid) && Work(lock, waiting + pending, seen) == Work(lock, waiting, mid)
    decreases Unseen(lock, seen), |pending|
  {
    hide Work, KeySeen, ResolveAll, Unseen;
    if pending == [] {
      assert waiting + pending == waiting;
      WorkDone(lock, seen);
    } else {
      var rest, p := pending[..|pending| - 1], pending[|pending| - 1];
      assert pending == rest + [p] && waiting + pending == (waiting + rest) + [p];
      WorkStep(lock, rest, p, seen);
      WorkStep(lock, waiting + rest, p, seen);
      if KeySeen(lock, seen, KeyOf(lock[p])) {
        WorkSplit(lock, waiting, rest, seen);
      } else if ResolveAll(lock, lock[p].dependencies).Ok? {
        var next := ResolveAll(lock, lock[p].dependencies).value;
        assert (waiting + rest) + next == waiting + (rest + next);
        WorkSplit(lock, waiting, rest + next, seen + [p]);
      }
    }
  }

  lemma WorkDone(lock: Lock, seen: seq<nat>)
    requires InLock(lock, seen)
    ensures Work(lock, [], seen) == Ok(seen)
  {
  }

  lemma OneRoot(lock: Lock, a: string)
    requires ResolveRoot(lock, a).Some?
    ensures ResolveRoots(lock, [a]) == Ok([ResolveRoot(lock, a).value])
  {
    var none: seq<string> := [a][1..];
    assert none == [] && ResolveRoots(lock, none) == Ok([]);
    assert [ResolveRoot(lock, a).value] + [] == [ResolveRoot(lock, a).value];
  }

  // ---------- What each root contributes ----------

  /** What of `s` is not in `base`, in order. */
  ghost function Outside(s: seq<nat>, base: seq<nat>): seq<nat> {
    if s == [] then []
    else
      var front := Outside(s[..|s| - 1], base);
      if s[|s| - 1] in base then front else front + [s[|s| - 1]]
  }

  lemma {:induction false} OutsideIs(s: seq<nat>, base: seq<nat>)
    ensures forall i :: i in Outside(s, base) <==> i in s && i !in base
  {
    if s != [] {
      OutsideIs(s[..|s| - 1], base);
      assert s == s[..|s| - 1] + [s[|s| - 1]];
    }
  }

  lemma OutsideInLock(lock: Lock, s: seq<nat>, base: seq<nat>)
    requires InLock(lock, s) && InLock(lock, base)
    ensures InLock(lock, base + Outside(s, base))
  {
    OutsideIs(s, base);
    var all := base + Outside(s, base);
    forall k | 0 <= k < |all| ensures all[k] < |lock| {
      assert all[k] in base || all[k] in Outside(s, base);
    }
  }

  lemma OutsideLast(s: seq<nat>, base: seq<nat>, i: nat)
    ensures Outside(s + [i], base) == if i in base then Outside(s, base) else Outside(s, base) + [i]
  {
    assert (s + [i])[..|s|] == s;
  }

  lemma {:induction false} OutsideMore(s: seq<nat>, t: seq<nat>, base: seq<nat>)
    requires s <= t && forall k :: |s| <= k < |t| ==> t[k] in base
    ensures Outside(t, base) == Outside(s, base)
    decreases |t|
  {
    if |s| < |t| {
      assert s <= t[..|t| - 1];
      OutsideMore(s, t[..|t| - 1], base);
    } else {
      assert s == t;
    }
  }

  /** Outside keeps the order. */
  lemma {:induction false} OutsideOrder(s: seq<nat>, base: seq<nat>, i: nat, j: nat)
    requires Distinct(s) && i !in base && j !in base
    ensures Precedes(Outside(s, base), i, j) <==> Precedes(s, i, j)
  {
    hide Precedes, Distinct;
    if s == [] {
      NothingPrecedes(i, j);
    } else {
      var front, last := s[..|s| - 1], s[|s| - 1];
      assert s == front + [last];
      DistinctFront(front, last);
      OutsideOrder(front, base, i, j);
      OutsideIs(front, base);
      PrecedesLast(front, last, i, j);
      if last !in base { PrecedesLast(Outside(front, base), last, i, j); }
    }
  }

  lemma NothingPrecedes(i: nat, j: nat)
    ensures !Precedes([], i, j)
  {
  }

  lemma DistinctFront(front: seq<nat>, last: nat)
    requires Distinct(front + [last])
    ensures Distinct(front) && last !in front
  {
    var s := front + [last];
    assert forall k :: 0 <= k < |front| ==> s[k] == front[k];
    assert s[|front|] == last;
  }

  lemma PrecedesLast(s: seq<nat>, last: nat, i: nat, j: nat)
    ensures Precedes(s + [last], i, j) <==> Precedes(s, i, j) || (i in s && j == last)
  {
    var t := s + [last];
    if Precedes(s, i, j) {
      var a, b :| 0 <= a < b < |s| && s[a] == i && s[b] == j;
      assert t[a] == i && t[b] == j;
    }
    if i in s && j == last {
      var a :| 0 <= a < |s| && s[a] == i;
      assert t[a] == i && t[|s|] == j;
    }
  }

  ghost predicate ClosedUnder(lock: Lock, base: seq<nat>) {
    forall i, j :: i in base && Depends(lock, i, j) ==> j in base
  }

  /** What is taken from packages of a closed set stays in that set. */
  lemma {:induction false} WorkInside(lock: Lock, pending: seq<nat>, seen: seq<nat>, base: seq<nat>)
    requires InLock(lock, pending) && InLock(lock, seen) && ClosedUnder(lock, base)
    requires (forall i :: i in pending ==> i in base) && Work(lock, pending, seen).Ok?
    ensures var order := Work(lock, pending, seen).value;
      seen <= order && forall k :: |seen| <= k < |order| ==> order[k] in base
    decreases Unseen(lock, seen), |pending|
  {
    hide Work, KeySeen, Resolve, ResolveAll, Unseen;
    if pending == [] {
      WorkDone(lock, seen);
    } else {
      var rest, p := pending[..|pending| - 1], pending[|pending| - 1];
      assert pending == rest + [p];
      WorkStep(lock, rest, p, seen);
      if KeySeen(lock, seen, KeyOf(lock[p])) {
        WorkInside(lock, rest, seen, base);
      } else {
        ResolveAllIs(lock, lock[p].dependencies);
        var next := ResolveAll(lock, lock[p].dependencies).value;
        forall j | j in next ensures j in base { assert Depends(lock, p, j); }
        WorkInside(lock, rest + next, seen + [p], base);
      }
    }
  }

  /** With a closed set taken beforehand, the worklist takes the rest in the order it would have had. */
  lemma {:induction false} WorkOutside(lock: Lock, roots: seq<string>, pending: seq<nat>, seen: seq<nat>,
                                       base: seq<nat>)
    requires InLock(lock, pending) && InLock(lock, seen) && InLock(lock, base) && ClosedUnder(lock, base)
    requires AllReached(lock, roots, pending) && Work(lock, pending, seen).Ok?
    ensures InLock(lock, base + Outside(seen, base))
    ensures Work(lock, pending, base + Outside(seen, base)) == Ok(base + Outside(Work(lock, pending, seen).value, base))
    decreases Unseen(lock, seen), |pending|
  {
    hide Work, KeySeen, Resolve, ResolveAll, Unseen, Outside, Reached, ClosedUnder;
    OutsideInLock(lock, seen, base);
    var other := base + Outside(seen, base);
    if pending == [] {
      WorkDone(lock, seen);
      WorkDone(lock, other);
    } else {
      var rest, p := pending[..|pending| - 1], pending[|pending| - 1];
      assert pending == rest + [p] && p in pending;
      NeverMerged(lock, roots, p);
      SeenOutside(lock, seen, base, p);
      WorkStep(lock, rest, p, seen);
      WorkStep(lock, rest, p, other);
      if p in base {
        var mid := PassInside(lock, rest, p, seen, base);
        WorkOutside(lock, roots, rest, mid, base);
      } else if KeySeen(lock, seen, KeyOf(lock[p])) {
        WorkOutside(lock, roots, rest, seen, base);
      } else {
        var next := ResolveAll(lock, lock[p].dependencies).value;
        NextReached(lock, roots, p);
        OutsideLast(seen, base, p);
        assert other + [p] == base + Outside(seen + [p], base);
        WorkOutside(lock, roots, rest + next, seen + [p], base);
      }
    }
  }

  lemma NextReached(lock: Lock, roots: seq<string>, p: nat)
    requires p < |lock| && Reached(lock, roots, p) && ResolveAll(lock, lock[p].dependencies).Ok?
    ensures AllReached(lock, roots, ResolveAll(lock, lock[p].dependencies).value)
  {
    hide Reached, Resolve, ResolveAll;
    ResolveAllIs(lock, lock[p].dependencies);
    forall j | j in ResolveAll(lock, lock[p].dependencies).value ensures Reached(lock, roots, j) {
      assert Depends(lock, p, j);
      ReachedStep(lock, roots, p, j);
    }
  }

  /** A package with a key of its own is seen exactly if it is in the base or was seen without it. */
  lemma SeenOutside(lock: Lock, seen: seq<nat>, base: seq<nat>, p: nat)
    requires InLock(lock, seen) && InLock(lock, base + Outside(seen, base)) && Sole(lock, p)
    ensures KeySeen(lock, seen, KeyOf(lock[p])) <==> p in seen
    ensures KeySeen(lock, base + Outside(seen, base), KeyOf(lock[p])) <==> p in base || p in seen
  {
    OutsideIs(seen, base);
  }

  lemma PassInside(lock: Lock, rest: seq<nat>, p: nat, seen: seq<nat>, base: seq<nat>) returns (mid: seq<nat>)
    requires InLock(lock, rest) && p < |lock| && InLock(lock, seen) && ClosedUnder(lock, base) && p in base
    requires InLock(lock, rest + [p]) && Work(lock, rest + [p], seen).Ok?
    ensures InLock(lock, mid) && Work(lock, rest, mid) == Work(lock, rest + [p], seen)
    ensures Outside(mid, base) == Outside(seen, base) && Unseen(lock, mid) <= Unseen(lock, seen)
  {
    hide Work, Outside, ClosedUnder;
    WorkSplit(lock, rest, [p], seen);
    mid := Work(lock, [p], seen).value;
    WorkInside(lock, [p], seen, base);
    OutsideMore(seen, mid, base);
  }

  /** What the first root adds to the others: its own packages in its own order, without theirs. */
  lemma TakenOneMore(lock: Lock, root: string, rest: seq<string>)
    requires Closure(lock, [root] + rest).Ok?
    ensures Closure(lock, [root]).Ok? && Closure(lock, rest).Ok?
    ensures Taken(lock, [root] + rest) == Taken(lock, rest) + Outside(Taken(lock, [root]), Taken(lock, rest))
  {
    hide Work, Reached, ResolveRoot, ResolveRoots, Sort, Outside, KeySeen;
    var roots := [root] + rest;
    ClosureMonotone(lock, [root], roots);
    ClosureMonotone(lock, rest, roots);
    RootsTogether(lock, root, rest);
    var x, ys := ResolveRoots(lock, [root]).value, ResolveRoots(lock, rest).value;
    RootsInLock(lock, roots);
    RootsInLock(lock, [root]);
    RootsInLock(lock, rest);
    WorkSplit(lock, x, ys, []);
    TakenIs(lock, rest);
    TakenIs(lock, [root]);
    TakenClosed(lock, rest);
    StartInv(lock, [root], x);
    WorkOutside(lock, [root], x, [], Taken(lock, rest));
    OutsideNothing(Taken(lock, rest));
  }

  lemma OutsideNothing(base: seq<nat>)
    ensures base + Outside([], base) == base
  {
  }

  lemma RootsTogether(lock: Lock, root: string, rest: seq<string>)
    requires Closure(lock, [root] + rest).Ok?
    ensures ResolveRoots(lock, [root] + rest).Ok? && ResolveRoots(lock, [root]).Ok? && ResolveRoots(lock, rest).Ok?
    ensures ResolveRoots(lock, [root] + rest).value == ResolveRoots(lock, [root]).value + ResolveRoots(lock, rest).value
    ensures Closure(lock, [root]).Ok? ==> lock != []
  {
    hide Work, Sort, ResolveRoot;
    assert ([root] + rest)[1..] == rest && ([root] + rest)[0] == root;
    OneRoot(lock, root);
  }

  lemma TakenClosed(lock: Lock, roots: seq<string>)
    requires Closure(lock, roots).Ok?
    ensures ClosedUnder(lock, Taken(lock, roots))
  {
    hide Closure, Taken, Reached, Depends;
    TakenIs(lock, roots);
    forall i, j | i in Taken(lock, roots) && Depends(lock, i, j) ensures j in Taken(lock, roots) {
      ReachedStep(lock, roots, i, j);
    }
  }

  /** `i` is taken, and `j` is not or later. */
  ghost predicate TakenFirst(lock: Lock, roots: seq<string>, i: nat, j: nat) {
    && Closure(lock, roots).Ok?
    && i in Taken(lock, roots)
    && (j in Taken(lock, roots) ==> Precedes(Taken(lock, roots), i, j))
  }

  /** A root before the others decides only about packages that they do not reach. */
  lemma OneMoreDecides(lock: Lock, root: string, rest: seq<string>, i: nat, j: nat)
    requires Closure(lock, [root] + rest).Ok?
    ensures TakenFirst(lock, [root] + rest, i, j) <==>
      if Reached(lock, rest, i) || Reached(lock, rest, j) then TakenFirst(lock, rest, i, j)
      else TakenFirst(lock, [root], i, j)
  {
    hide Closure, Taken, Reached, Sort, Outside, Precedes;
    var roots := [root] + rest;
    TakenOneMore(lock, root, rest);
    TakenIs(lock, roots);
    TakenIs(lock, rest);
    TakenIs(lock, [root]);
    var front, own := Taken(lock, rest), Taken(lock, [root]);
    var more := Outside(own, front);
    OutsideIs(own, front);
    PrecedesJoined(front, more, i, j);
    if i !in front && j !in front { OutsideOrder(own, front, i, j); }
  }

  lemma PrecedesJoined(front: seq<nat>, more: seq<nat>, i: nat, j: nat)
    requires Distinct(front) && forall k :: k in more ==> k !in front
    ensures Precedes(front + more, i, j) <==>
      if i in front then j in more || Precedes(front, i, j) else j !in front && Precedes(more, i, j)
  {
    var all := front + more;
    if Precedes(all, i, j) {
      var a, b :| 0 <= a < b < |all| && all[a] == i && all[b] == j;
      if a >= |front| {
        assert more[a - |front|] == i && more[b - |front|] == j;
        assert i in more;
      } else if b >= |front| {
        assert more[b - |front|] == j;
      }
    }
    if i in front && j in more {
      var a :| 0 <= a < |front| && front[a] == i;
      var b :| 0 <= b < |more| && more[b] == j;
      assert all[a] == i && all[|front| + b] == j;
    } else if i in front && Precedes(front, i, j) {
      var a, b :| 0 <= a < b < |front| && front[a] == i && front[b] == j;
      assert all[a] == i && all[b] == j;
    } else if i !in front && Precedes(more, i, j) {
      var a, b :| 0 <= a < b < |more| && more[a] == i && more[b] == j;
      assert all[|front| + a] == i && all[|front| + b] == j;
    }
  }

  lemma ReachedOneMore(lock: Lock, root: string, rest: seq<string>, i: nat)
    ensures Reached(lock, [root] + rest, i) <==> Reached(lock, [root], i) || Reached(lock, rest, i)
  {
    var roots := [root] + rest;
    if Reached(lock, roots, i) {
      var c :| ReachedBy(lock, roots, c, i);
      assert ReachedBy(lock, [root], c, i) || ReachedBy(lock, rest, c, i);
    }
    if Reached(lock, [root], i) { ReachedMonotone(lock, [root], roots, i); }
    if Reached(lock, rest, i) { ReachedMonotone(lock, rest, roots, i); }
  }

  /** Roots that can each be closed can be closed together. */
  lemma ClosedTogether(lock: Lock, root: string, rest: seq<string>)
    requires Closure(lock, [root]).Ok? && Closure(lock, rest).Ok?
    ensures Closure(lock, [root] + rest).Ok?
  {
    hide Closure, Reached, ResolveRoot;
    var roots := [root] + rest;
    ClosureIsExact(lock, [root]);
    ClosureIsExact(lock, rest);
    ClosureIsExact(lock, roots);
    assert RootsResolve(lock, roots);
    forall i: nat | Reached(lock, roots, i) ensures EdgesResolve(lock, i) { ReachedOneMore(lock, root, rest, i); }
  }

  ghost predicate Untouched(lock: Lock, roots: seq<string>, i: nat, j: nat) {
    forall root :: root in roots ==> !Reached(lock, [root], i) && !Reached(lock, [root], j)
  }

  /** Root `k` alone takes `i` first, and no later root alone reaches either of the two. */
  ghost predicate Decides(lock: Lock, roots: seq<string>, k: nat, i: nat, j: nat) {
    k < |roots| && TakenFirst(lock, [roots[k]], i, j) && Untouched(lock, roots[k + 1..], i, j)
  }

  lemma {:induction false} UntouchedIs(lock: Lock, roots: seq<string>, i: nat, j: nat)
    ensures Untouched(lock, roots, i, j) <==> !Reached(lock, roots, i) && !Reached(lock, roots, j)
  {
    hide Reached;
    if roots == [] {
      NoneReached(lock, i);
      NoneReached(lock, j);
    } else {
      var rest := roots[1..];
      assert roots == [roots[0]] + rest;
      UntouchedIs(lock, rest, i, j);
      ReachedOneMore(lock, roots[0], rest, i);
      ReachedOneMore(lock, roots[0], rest, j);
    }
  }

  lemma NoneReached(lock: Lock, i: nat)
    ensures !Reached(lock, [], i)
  {
  }

  /** Of any two packages the last root that reaches one of them decides which is taken first, as it
      does on its own. */
  lemma {:induction false} LastRootDecides(lock: Lock, roots: seq<string>, i: nat, j: nat)
    requires Closure(lock, roots).Ok?
    ensures TakenFirst(lock, roots, i, j) <==> exists k :: Decides(lock, roots, k, i, j)
  {
    hide Closure, Taken, Reached, TakenFirst, Untouched;
    if roots == [] {
      NoneReached(lock, i);
      NothingFirst(lock, i, j);
    } else {
      var root, rest := roots[0], roots[1..];
      assert roots == [root] + rest;
      TakenOneMore(lock, root, rest);
      OneMoreDecides(lock, root, rest, i, j);
      UntouchedIs(lock, rest, i, j);
      LastRootDecides(lock, rest, i, j);
      forall k: nat
        ensures Decides(lock, rest, k, i, j) <==> k < |rest| && Decides(lock, roots, k + 1, i, j)
      {
        assert k < |rest| ==> rest[k + 1..] == roots[k + 2..];
      }
      DecidedReached(lock, rest, i, j);
      assert Decides(lock, roots, 0, i, j) <==> TakenFirst(lock, [root], i, j) && Untouched(lock, rest, i, j);
      if k: nat :| Decides(lock, roots, k, i, j) && k > 0 {
        assert Decides(lock, rest, k - 1, i, j);
      }
      if k: nat :| Decides(lock, rest, k, i, j) {
        assert Decides(lock, roots, k + 1, i, j);
      }
    }
  }

  lemma DecidedReached(lock: Lock, roots: seq<string>, i: nat, j: nat)
    requires Closure(lock, roots).Ok?
    ensures TakenFirst(lock, roots, i, j) ==> Reached(lock, roots, i)
  {
    hide Closure, Taken, Reached;
    TakenIs(lock, roots);
  }

  lemma NothingFirst(lock: Lock, i: nat, j: nat)
    requires Closure(lock, []).Ok?
    ensures !TakenFirst(lock, [], i, j)
  {
    hide Closure, Taken, Reached;
    NoneReached(lock, i);
    TakenIs(lock, []);
  }

  /** The two packages tie, and the runs of the single roots put `i` first. */
  ghost predicate TieDecided(lock: Lock, roots: seq<string>, i: nat, j: nat) {
    && Tie(lock, i, j)
    && exists k :: Decides(lock, roots, k, i, j)
  }

  /** So whether two orders of the roots give the same list can be read off the runs of the single
      roots: they do exactly when every tie is decided alike. */
  lemma SameListByRoots(lock: Lock, roots: seq<string>, others: seq<string>)
    requires Closure(lock, roots).Ok? && Closure(lock, others).Ok?
    requires forall root :: root in roots <==> root in others
    ensures Closure(lock, roots) == Closure(lock, others) <==>
            forall i: nat, j: nat :: TieDecided(lock, roots, i, j) ==> TieDecided(lock, others, i, j)
  {
    hide Closure, Taken, Reached, SameSortKey, Decides, Precedes;
    SameListIff(lock, roots, others);
    SameReached(lock, roots, others);
    forall i: nat, j: nat
      ensures TieDecided(lock, roots, i, j) <==> Tie(lock, i, j) && TakenFirst(lock, roots, i, j)
      ensures TieDecided(lock, others, i, j) <==> Tie(lock, i, j) && TakenFirst(lock, others, i, j)
      ensures TakenFirst(lock, roots, i, j) && !Reached(lock, roots, j) ==> TakenFirst(lock, others, i, j)
      ensures Reached(lock, roots, j) ==> (TakenFirst(lock, roots, i, j) <==> Precedes(Taken(lock, roots), i, j))
      ensures Reached(lock, roots, j) ==> (TakenFirst(lock, others, i, j) <==> Precedes(Taken(lock, others), i, j))
      ensures Precedes(Taken(lock, roots), i, j) ==> Reached(lock, roots, j)
    {
      TieIs(lock, roots, i, j);
      TieIs(lock, others, i, j);
      FirstIsPrecedes(lock, roots, i, j);
      FirstIsPrecedes(lock, others, i, j);
    }
  }

  lemma FirstIsPrecedes(lock: Lock, roots: seq<string>, i: nat, j: nat)
    requires Closure(lock, roots).Ok?
    ensures TakenFirst(lock, roots, i, j) <==>
      Reached(lock, roots, i) && (Reached(lock, roots, j) ==> Precedes(Taken(lock, roots), i, j))
    ensures Precedes(Taken(lock, roots), i, j) ==> Reached(lock, roots, i) && Reached(lock, roots, j)
  {
    hide Closure, Taken, Reached;
    TakenIs(lock, roots);
    if Precedes(Taken(lock, roots), i, j) { OneWay(Taken(lock, roots), i, j); }
  }

  lemma FirstOrOther(lock: Lock, roots: seq<string>, i: nat, j: nat)
    requires Closure(lock, roots).Ok?
    ensures !(TakenFirst(lock, roots, i, j) && TakenFirst(lock, roots, j, i))
    ensures i != j && (Reached(lock, roots, i) || Reached(lock, roots, j)) ==>
      TakenFirst(lock, roots, i, j) || TakenFirst(lock, roots, j, i)
  {
    hide Closure, Taken, Reached;
    TakenIs(lock, roots);
    var order := Taken(lock, roots);
    if Precedes(order, i, j) { OneWay(order, i, j); }
    if i in order && j in order && i != j { OneOrOther(order, i, j); }
  }

  lemma SwappedPair(lock: Lock, a: string, b: string, i: nat, j: nat)
    requires Closure(lock, [a] + [b]).Ok? && Closure(lock, [b] + [a]).Ok?
    ensures TakenFirst(lock, [a] + [b], i, j) && !TakenFirst(lock, [b] + [a], i, j) <==>
            TakenFirst(lock, [b], i, j) && TakenFirst(lock, [a], j, i)
  {
    hide Closure, Taken, Reached, TakenFirst;
    OneMoreDecides(lock, a, [b], i, j);
    OneMoreDecides(lock, b, [a], i, j);
    TakenOneMore(lock, a, [b]);
    FirstOrOther(lock, [a], i, j);
    FirstOrOther(lock, [b], i, j);
    DecidedReached(lock, [a], i, j);
    DecidedReached(lock, [b], i, j);
    DecidedReached(lock, [a], j, i);
  }

  /** For two roots: their order matters exactly when of some two packages that tie one is taken
      first from the first root alone, and the other from the second alone. */
  lemma TwoOrdersIff(lock: Lock, a: string, b: string)
    requires Closure(lock, [a]).Ok? && Closure(lock, [b]).Ok?
    ensures Closure(lock, [a, b]).Ok? && Closure(lock, [b, a]).Ok?
    ensures Closure(lock, [a, b]) != Closure(lock, [b, a]) <==>
            exists i: nat, j: nat :: Tie(lock, i, j) && TakenFirst(lock, [a], i, j) && TakenFirst(lock, [b], j, i)
  {
    hide Closure, TakenFirst, Tie, TieDecided;
    assert [a] + [b] == [a, b] && [b] + [a] == [b, a];
    ClosedTogether(lock, a, [b]);
    ClosedTogether(lock, b, [a]);
    SameListByRoots(lock, [a, b], [b, a]);
    forall i: nat, j: nat
      ensures TieDecided(lock, [a, b], i, j) && !TieDecided(lock, [b, a], i, j) <==>
              Tie(lock, i, j) && TakenFirst(lock, [b], i, j) && TakenFirst(lock, [a], j, i)
    {
      TieIs(lock, [a, b], i, j);
      TieIs(lock, [b, a], i, j);
      SwappedPair(lock, a, b, i, j);
    }
    if i: nat, j: nat :| TieDecided(lock, [a, b], i, j) && !TieDecided(lock, [b, a], i, j) {
      assert Tie(lock, j, i) by { TieSymmetric(lock, i, j); }
    }
    if i: nat, j: nat :| Tie(lock, i, j) && TakenFirst(lock, [a], i, j) && TakenFirst(lock, [b], j, i) {
      TieSymmetric(lock, i, j);
      assert TieDecided(lock, [a, b], j, i) && !TieDecided(lock, [b, a], j, i);
    }
  }

  lemma TieSymmetric(lock: Lock, i: nat, j: nat)
    ensures Tie(lock, i, j) <==> Tie(lock, j, i)
  {
  }

  lemma TieIs(lock: Lock, roots: seq<string>, i: nat, j: nat)
    requires Closure(lock, roots).Ok?
    ensures TieDecided(lock, roots, i, j) <==> Tie(lock, i, j) && TakenFirst(lock, roots, i, j)
  {
    hide Closure, TakenFirst, Decides, SameSortKey;
    LastRootDecides(lock, roots, i, j);
  }

  /** A tie across two roots is decided by their order: the packages of the later root are taken
      first, so of two packages that tie and belong to one root each, the later root's comes first. */
  lemma TieFollowsRoots(lock: Lock, a: string, b: string, i: nat, j: nat)
    requires Closure(lock, [a]).Ok? && Closure(lock, [b]).Ok?
    requires Reached(lock, [a], i) && !Reached(lock, [b], i)
    requires Reached(lock, [b], j)
    requires i < |lock| && j < |lock| && SameSortKey(lock[i], lock[j])
    ensures Closure(lock, [a, b]).Ok? && Precedes(Closure(lock, [a, b]).value, j, i)
  {
    hide Closure, Reached, Taken, TakenFirst;
    assert [a] + [b] == [a, b];
    ClosedTogether(lock, a, [b]);
    ReachedOneMore(lock, a, [b], i);
    FirstIsPrecedes(lock, [b], j, i);
    OneMoreDecides(lock, a, [b], j, i);
    FirstIsPrecedes(lock, [a, b], j, i);
    TiesInOrder(lock, [a, b], j, i);
  }

  /** So such a tie makes the list depend on the order of the roots. */
  lemma TieDecides(lock: Lock, a: string, b: string, i: nat, j: nat)
    requires Closure(lock, [a]).Ok? && Closure(lock, [b]).Ok?
    requires Reached(lock, [a], i) && !Reached(lock, [b], i)
    requires Reached(lock, [b], j) && !Reached(lock, [a], j)
    requires i < |lock| && j < |lock| && SameSortKey(lock[i], lock[j])
    ensures Closure(lock, [a, b]).Ok? && Closure(lock, [b, a]).Ok?
    ensures Closure(lock, [a, b]) != Closure(lock, [b, a])
  {
    hide Closure, Reached, Taken, TakenFirst;
    FirstIsPrecedes(lock, [a], i, j);
    FirstIsPrecedes(lock, [b], j, i);
    assert Tie(lock, i, j);
    TwoOrdersIff(lock, a, b);
  }

  // ---------- Entries with new names ----------

  ghost predicate FreshNames(lock: Lock, extra: Lock) {
    forall i, j :: 0 <= i < |lock| && 0 <= j < |extra| ==> extra[j].name != lock[i].name
  }

  lemma ResolveKept(lock: Lock, extra: Lock, edge: string, i: nat)
    requires FreshNames(lock, extra) && Resolve(lock, edge) == Some(i)
    ensures Resolve(lock + extra, edge) == Some(i)
  {
    ResolveIff(lock, edge, i);
    var all := lock + extra;
    assert forall j :: |lock| <= j < |all| ==> all[j] == extra[j - |lock|] && all[j].name != lock[i].name;
    var e := ParseEdge(edge);
    assert forall j: nat :: Named(all, j, e.name, e.version, e.source) ==> j == i by {
      assert forall j: nat :: Named(all, j, e.name, e.version, e.source) && j < |lock| ==>
        Named(lock, j, e.name, e.version, e.source);
    }
    ResolveIff(all, edge, i);
  }

  lemma ResolveRootKept(lock: Lock, extra: Lock, root: string, i: nat)
    requires FreshNames(lock, extra) && ResolveRoot(lock, root) == Some(i)
    ensures ResolveRoot(lock + extra, root) == Some(i)
  {
    ResolveRootIff(lock, root, i);
    var all := lock + extra;
    assert forall j :: |lock| <= j < |all| ==> all[j] == extra[j - |lock|] && all[j].name != lock[i].name;
    assert forall j: nat :: LocalNamed(all, j, root) ==> j == i by {
      assert forall j: nat :: LocalNamed(all, j, root) && j < |lock| ==> LocalNamed(lock, j, root);
    }
    ResolveRootIff(all, root, i);
  }

  lemma {:induction false} ResolveAllKept(lock: Lock, extra: Lock, edges: seq<string>)
    requires FreshNames(lock, extra) && ResolveAll(lock, edges).Ok?
    ensures ResolveAll(lock + extra, edges) == ResolveAll(lock, edges)
  {
    hide Resolve, FreshNames;
    if edges != [] {
      ResolveKept(lock, extra, edges[0], Resolve(lock, edges[0]).value);
      ResolveAllKept(lock, extra, edges[1..]);
    }
  }

  lemma {:induction false} ResolveRootsKept(lock: Lock, extra: Lock, roots: seq<string>)
    requires FreshNames(lock, extra) && ResolveRoots(lock, roots).Ok?
    ensures ResolveRoots(lock + extra, roots) == ResolveRoots(lock, roots)
  {
    hide ResolveRoot, FreshNames;
    if roots != [] {
      ResolveRootKept(lock, extra, roots[0], ResolveRoot(lock, roots[0]).value);
      ResolveRootsKept(lock, extra, roots[1..]);
    }
  }

  lemma {:induction false} WorkKept(lock: Lock, extra: Lock, pending: seq<nat>, seen: seq<nat>)
    requires FreshNames(lock, extra) && InLock(lock, pending) && InLock(lock, seen)
    requires Work(lock, pending, seen).Ok?
    ensures InLock(lock + extra, pending) && InLock(lock + extra, seen)
    ensures Work(lock + extra, pending, seen) == Work(lock, pending, seen)
    decreases Unseen(lock, seen), |pending|
  {
    hide ResolveAll, FreshNames;
    if pending != [] {
      var p, rest := pending[|pending| - 1], pending[..|pending| - 1];
      assert (lock + extra)[p] == lock[p];
      assert forall i :: i in seen ==> (lock + extra)[i] == lock[i];
      assert KeySeen(lock, seen, KeyOf(lock[p])) <==> KeySeen(lock + extra, seen, KeyOf(lock[p]));
      if KeySeen(lock, seen, KeyOf(lock[p])) {
        WorkKept(lock, extra, rest, seen);
      } else {
        ResolveAllKept(lock, extra, lock[p].dependencies);
        ResolveAllInLock(lock, lock[p].dependencies);
        assert p in Unseen(lock, seen) && p !in Unseen(lock, seen + [p]);
        assert Unseen(lock, seen + [p]) < Unseen(lock, seen);
        WorkKept(lock, extra, rest + ResolveAll(lock, lock[p].dependencies).value, seen + [p]);
      }
    }
  }

  lemma {:induction false} SortKept(lock: Lock, extra: Lock, order: seq<nat>)
    requires InLock(lock, order)
    ensures InLock(lock + extra, order) && Sort(lock + extra, order) == Sort(lock, order)
  {
    if order != [] {
      var front := order[..|order| - 1];
      SortKept(lock, extra, front);
      InsertKept(lock, extra, Sort(lock, front), order[|order| - 1]);
    }
  }

  lemma {:induction false} InsertKept(lock: Lock, extra: Lock, s: seq<nat>, i: nat)
    requires InLock(lock, s) && i < |lock|
    ensures InLock(lock + extra, s) && Insert(lock + extra, s, i) == Insert(lock, s, i)
  {
    hide PackageBefore;
    assert (lock + extra)[i] == lock[i];
    if s != [] {
      assert (lock + extra)[s[|s| - 1]] == lock[s[|s| - 1]];
      InsertKept(lock, extra, s[..|s| - 1], i);
    }
  }

  /** Adding lockfile entries under names that are new leaves a successful closure as it was. */
  lemma FreshNamesIgnored(lock: Lock, extra: Lock, roots: seq<string>)
    requires FreshNames(lock, extra) && Closure(lock, roots).Ok?
    ensures Closure(lock + extra, roots) == Closure(lock, roots)
    ensures Tables(lock + extra, Closure(lock + extra, roots).value) == Tables(lock, Closure(lock, roots).value)
  {
    hide FreshNames, Work, Sort, ResolveRoots;
    ResolveRootsKept(lock, extra, roots);
    RootsInLock(lock, roots);
    var start := ResolveRoots(lock, roots).value;
    WorkKept(lock, extra, start, []);
    WorkInLock(lock, start, []);
    SortKept(lock, extra, Work(lock, start, []).value);
  }

  // ---------- Packages that tie ----------

  /** A package without a source and one whose source is the empty text, told apart by their keys
      but not by the sort. */
  function Tied(): (lock: Lock)
    ensures |lock| == 3
  {
    [Package("a", "1", None, []), Package("a", "1", Some(""), []), Package("c", "1", None, ["a 1 ()"])]
  }

  lemma TiedResolve()
    ensures ResolveRoot(Tied(), "a") == Some(0) && ResolveRoot(Tied(), "c") == Some(2)
    ensures ResolveAll(Tied(), Tied()[0].dependencies) == Ok([]) && ResolveAll(Tied(), Tied()[1].dependencies) == Ok([])
    ensures ResolveAll(Tied(), Tied()[2].dependencies) == Ok([1])
  {
    hide Resolve, ResolveRoot;
    ResolveRootIff(Tied(), "a", 0);
    ResolveRootIff(Tied(), "c", 2);
    TiedEdge();
    var edges := Tied()[2].dependencies;
    assert edges == ["a 1 ()"] && edges[1..] == [];
    assert ResolveAll(Tied(), edges[1..]) == Ok([]);
    assert [1] + [] == [1];
  }

  lemma TiedEdge()
    ensures Resolve(Tied(), "a 1 ()") == Some(1)
  {
    hide Resolve, ParseEdge;
    var e := Edge("a", Some("1"), Some(""));
    assert EdgeText(e) == "a 1 ()";
    EdgeRoundTrip(e);
    ResolveIff(Tied(), "a 1 ()", 1);
  }

  lemma TiedKeys()
    ensures SameSortKey(Tied()[0], Tied()[1])
    ensures !KeySeen(Tied(), [], KeyOf(Tied()[0])) && !KeySeen(Tied(), [], KeyOf(Tied()[2]))
    ensures !KeySeen(Tied(), [2], KeyOf(Tied()[1]))
  {
  }

  lemma TiedWork()
    ensures Work(Tied(), [0], []) == Ok([0]) && Work(Tied(), [2], []) == Ok([2, 1])
  {
    hide Tied, Work, ResolveAll, KeySeen;
    TiedResolve();
    TiedKeys();
    OnePackage(Tied(), 0, [], [], [0]);
    OnePackage(Tied(), 2, [], [1], [2]);
    OnePackage(Tied(), 1, [2], [], [2, 1]);
    WorkDone(Tied(), [0]);
    WorkDone(Tied(), [2, 1]);
  }

  /** A package that is alone in the list. */
  lemma OnePackage(lock: Lock, p: nat, seen: seq<nat>, next: seq<nat>, after: seq<nat>)
    requires p < |lock| && InLock(lock, seen) && !KeySeen(lock, seen, KeyOf(lock[p])) && after == seen + [p]
    requires ResolveAll(lock, lock[p].dependencies) == Ok(next)
    ensures InLock(lock, next) && InLock(lock, after) && Work(lock, [p], seen) == Work(lock, next, after)
  {
    hide Work, ResolveAll, KeySeen;
    WorkStep(lock, [], p, seen);
    assert [] + [p] == [p] && [] + next == next;
  }

  lemma TiedTaken()
    ensures Closure(Tied(), ["a"]).Ok? && Taken(Tied(), ["a"]) == [0]
    ensures Closure(Tied(), ["c"]).Ok? && Taken(Tied(), ["c"]) == [2, 1]
  {
    hide Tied, Work, Sort, ResolveRoot;
    TiedResolve();
    TiedWork();
    OneRoot(Tied(), "a");
    OneRoot(Tied(), "c");
  }

  /** With such a pair the order of the roots decides the order of the list. */
  lemma EmptySourceTies()
    ensures Closure(Tied(), ["a", "c"]).Ok? && Closure(Tied(), ["c", "a"]).Ok?
    ensures Closure(Tied(), ["a", "c"]) != Closure(Tied(), ["c", "a"])
  {
    hide Tied, Closure, Taken, Reached, SameSortKey;
    TiedTaken();
    TiedKeys();
    TakenIs(Tied(), ["a"]);
    TakenIs(Tied(), ["c"]);
    assert 0 in [0] && 1 in [2, 1] && 1 !in [0] && 0 !in [2, 1];
    TieDecides(Tied(), "a", "c", 0, 1);
  }
}
