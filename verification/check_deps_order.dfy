/**
 The build order: Kahn's topological sort over the include graph. Every
 file starts with an in-degree equal to the number of files including it;
 files of in-degree zero are emitted first-in first-out, and emitting a
 file releases the files it includes.

 Edges run from an includer to what it includes, so the order lists a file
 only after every file that includes it; files on a cycle are never listed.
 */
module CheckDepsOrder {
  import opened Util
  import opened CheckDeps
  import opened CheckDepsCycles

  /** The includers of `v` among the first `i` keys: what the degree count has seen so far. */
  function SeenIncluders(g: Graph, i: nat, v: Path): set<Path>
    requires i <= |g.keys|
  {
    Preds(g, v) * Elems(g.keys[..i])
  }

  /** Every file included by one of the first `i` keys already has a degree entry. */
  ghost predicate TouchedAll(g: Graph, i: nat, deg: map<Path, int>)
    requires i <= |g.keys|
  {
    forall m, b | 0 <= m < i && b in Succ(g, g.keys[m]) :: b in deg
  }

  ghost predicate DegreeTable(g: Graph, deg: map<Path, int>, order: seq<Path>) {
    && Distinct(order)
    && deg.Keys == Elems(order)
    && deg.Keys <= Nodes(g)
  }

  /** The graph facts the sort relies on, one edge at a time. */
  lemma EdgeFacts(g: Graph, u: Path, v: Path)
    requires GraphValid(g)
    ensures v in Succ(g, u) <==> u in Preds(g, v)
    ensures u in Preds(g, v) ==> u in g.fwd && u in g.keys && v in g.rev
    ensures Distinct(Succ(g, u))
  {
  }

  lemma IncludesAreNodes(g: Graph, u: Path)
    requires GraphValid(g)
    ensures Distinct(Succ(g, u)) && Elems(Succ(g, u)) <= Nodes(g)
  {
    forall b | b in Elems(Succ(g, u)) ensures b in Nodes(g) {
      EdgeFacts(g, u, b);
    }
  }

  /** The degree entry of every key among the first `i` keys exists. */
  ghost predicate KeysIn(g: Graph, i: nat, deg: map<Path, int>)
    requires i <= |g.keys|
  {
    forall m | 0 <= m < i :: g.keys[m] in deg
  }

  /** Every degree is the count of includers seen so far, plus one for each released position. */
  ghost predicate PartialDegrees(g: Graph, i: nat, deg: map<Path, int>, succ: seq<Path>, j: nat)
    requires i <= |g.keys| && j <= |succ|
  {
    forall v | v in deg :: deg[v] == |SeenIncluders(g, i, v)| + (if v in succ[..j] then 1 else 0)
  }

  lemma UnseenHasNoIncluders(g: Graph, i: nat, deg: map<Path, int>, v: Path)
    requires GraphValid(g) && i <= |g.keys| && TouchedAll(g, i, deg) && v !in deg
    ensures SeenIncluders(g, i, v) == {}
  {
    forall u | u in Preds(g, v) ensures u !in Elems(g.keys[..i]) {
      EdgeFacts(g, u, v);
    }
  }

  lemma DistinctPrefixExcludes(s: seq<Path>, i: nat)
    requires Distinct(s) && i < |s|
    ensures s[i] !in Elems(s[..i])
  {
    forall m | 0 <= m < i ensures s[..i][m] != s[i] {
      assert s[..i][m] == s[m];
    }
  }

  /** Adding key `i` to the seen prefix adds it to the includers of exactly its successors. */
  lemma SeenIncludersStep(g: Graph, i: nat, v: Path)
    requires GraphValid(g) && i < |g.keys|
    ensures SeenIncluders(g, i + 1, v) ==
      SeenIncluders(g, i, v) + (if v in Succ(g, g.keys[i]) then {g.keys[i]} else {})
    ensures g.keys[i] !in SeenIncluders(g, i, v)
  {
    var k := g.keys[i];
    assert g.keys[..i + 1] == g.keys[..i] + [k];
    assert Elems(g.keys[..i + 1]) == Elems(g.keys[..i]) + {k};
    EdgeFacts(g, k, v);
    DistinctPrefixExcludes(g.keys, i);
  }

  /** Once every key is seen, the count is the full set of includers. */
  lemma SeenIncludersAll(g: Graph, v: Path)
    requires GraphValid(g)
    ensures SeenIncluders(g, |g.keys|, v) == Preds(g, v)
  {
    assert g.keys[..|g.keys|] == g.keys;
    forall u | u in Preds(g, v) ensures u in Elems(g.keys) {
      EdgeFacts(g, u, v);
    }
  }

  /** Every file of the graph received a degree entry once all keys are seen. */
  lemma TouchedCoversNodes(g: Graph, deg: map<Path, int>)
    requires GraphValid(g) && TouchedAll(g, |g.keys|, deg) && KeysIn(g, |g.keys|, deg)
    ensures Nodes(g) <= deg.Keys
  {
    forall v | v in Nodes(g) ensures v in deg {
      if v in g.fwd {
        assert v in g.keys;
        var m :| 0 <= m < |g.keys| && g.keys[m] == v;
      } else {
        var a :| a in g.rev[v];
        assert a in Preds(g, v);
        EdgeFacts(g, a, v);
        var m :| 0 <= m < |g.keys| && g.keys[m] == a;
      }
    }
  }

  /** Growing the table keeps what was already touched. */
  lemma TouchedGrows(g: Graph, i: nat, d0: map<Path, int>, d1: map<Path, int>)
    requires i <= |g.keys| && d0.Keys <= d1.Keys
    requires TouchedAll(g, i, d0) && KeysIn(g, i, d0)
    ensures TouchedAll(g, i, d1) && KeysIn(g, i, d1)
  {
  }

  /** Adding one more table entry keeps the table duplicate-free and inside the graph. */
  lemma TableSnoc(g: Graph, deg: map<Path, int>, order: seq<Path>, x: Path, n: int)
    requires DegreeTable(g, deg, order) && x !in deg && x in Nodes(g)
    ensures DegreeTable(g, deg[x := n], order + [x])
  {
    ElemsSnoc(order, x);
    DistinctSnoc(order, x);
  }

  /** Counting one more include of `b`, the `j`-th file included by key `i`. */
  lemma PartialDegreesStep(g: Graph, i: nat, deg: map<Path, int>, succ: seq<Path>, j: nat)
    requires GraphValid(g) && i < |g.keys| && succ == Succ(g, g.keys[i]) && j < |succ|
    requires TouchedAll(g, i, deg) && PartialDegrees(g, i, deg, succ, j)
    ensures var b := succ[j];
      PartialDegrees(g, i, deg[b := if b in deg then deg[b] + 1 else 1], succ, j + 1)
  {
    var b := succ[j];
    EdgeFacts(g, g.keys[i], b);
    assert succ[..j + 1] == succ[..j] + [b];
    DistinctPrefixExcludes(succ, j);
    if b !in deg {
      UnseenHasNoIncluders(g, i, deg, b);
    }
  }

  /** What holds while the includes of key `i` are counted, `j` of them so far. */
  ghost predicate CountInv(g: Graph, i: nat, deg0: map<Path, int>, deg: map<Path, int>, order: seq<Path>,
                           j: nat)
    requires i < |g.keys|
  {
    && j <= |Succ(g, g.keys[i])|
    && DegreeTable(g, deg, order)
    && deg0.Keys <= deg.Keys
    && Elems(Succ(g, g.keys[i])[..j]) <= deg.Keys
    && PartialDegrees(g, i, deg, Succ(g, g.keys[i]), j)
  }

  /** Counting the `j`-th include `b` of key `i` keeps the loop invariant of the count. */
  lemma CountStep(g: Graph, i: nat, deg0: map<Path, int>, deg: map<Path, int>, order: seq<Path>,
                  j: nat, b: Path, n: int, order2: seq<Path>)
    requires GraphValid(g) && i < |g.keys| && j < |Succ(g, g.keys[i])| && b == Succ(g, g.keys[i])[j]
    requires TouchedAll(g, i, deg0) && KeysIn(g, i, deg0)
    requires CountInv(g, i, deg0, deg, order, j)
    requires n == if b in deg then deg[b] + 1 else 1
    requires order2 == if b in deg then order else order + [b]
    ensures CountInv(g, i, deg0, deg[b := n], order2, j + 1)
  {
    var succ := Succ(g, g.keys[i]);
    TouchedGrows(g, i, deg0, deg);
    PartialDegreesStep(g, i, deg, succ, j);
    EdgeFacts(g, g.keys[i], b);
    TableStep(g, deg, order, b, n, order2);
    CoveredStep(succ, j, deg[b := n].Keys);
  }

  /** Setting the entry of `b` keeps the table, appending `b` to the order when it is new. */
  lemma TableStep(g: Graph, deg: map<Path, int>, order: seq<Path>, b: Path, n: int, order2: seq<Path>)
    requires DegreeTable(g, deg, order) && b in Nodes(g)
    requires order2 == if b in deg then order else order + [b]
    ensures DegreeTable(g, deg[b := n], order2) && deg.Keys <= deg[b := n].Keys
  {
    if b !in deg {
      TableSnoc(g, deg, order, b, n);
    } else {
      assert deg[b := n].Keys == deg.Keys;
    }
  }

  /** A prefix whose files all have entries stays so when the next file gets one. */
  lemma CoveredStep(succ: seq<Path>, j: nat, keys: set<Path>)
    requires j < |succ| && Elems(succ[..j]) <= keys && succ[j] in keys
    ensures Elems(succ[..j + 1]) <= keys
  {
    PrefixSnoc(succ, j);
    ElemsSnoc(succ[..j], succ[j]);
  }

  /** Counting the includes of key `i`, once the key itself has an entry. */
  method CountIncludes(g: Graph, i: nat, deg0: map<Path, int>, order0: seq<Path>)
    returns (deg: map<Path, int>, order: seq<Path>)
    requires GraphValid(g) && i < |g.keys|
    requires DegreeTable(g, deg0, order0) && TouchedAll(g, i, deg0) && KeysIn(g, i, deg0)
    requires g.keys[i] in deg0
    requires PartialDegrees(g, i, deg0, Succ(g, g.keys[i]), 0)
    ensures DegreeTable(g, deg, order) && TouchedAll(g, i, deg) && KeysIn(g, i + 1, deg)
    ensures Elems(Succ(g, g.keys[i])) <= deg.Keys
    ensures PartialDegrees(g, i, deg, Succ(g, g.keys[i]), |Succ(g, g.keys[i])|)
  {
    var k := g.keys[i];
    deg, order := deg0, order0;
    var succ := Succ(g, k);
    var j := 0;
    while j < |succ|
      invariant CountInv(g, i, deg0, deg, order, j)
    {
      var b := succ[j];
      var n := if b in deg then deg[b] + 1 else 1;
      var order2 := if b in deg then order else order + [b];
      CountStep(g, i, deg0, deg, order, j, b, n, order2);
      deg, order := deg[b := n], order2;
      j := j + 1;
    }
    assert succ[..j] == succ;
    TouchedGrows(g, i, deg0, deg);
  }

  /** After its includes are counted, key `i` counts as seen. */
  lemma CountKeyDone(g: Graph, i: nat, deg: map<Path, int>)
    requires GraphValid(g) && i < |g.keys|
    requires TouchedAll(g, i, deg) && Elems(Succ(g, g.keys[i])) <= deg.Keys
    requires PartialDegrees(g, i, deg, Succ(g, g.keys[i]), |Succ(g, g.keys[i])|)
    ensures TouchedAll(g, i + 1, deg)
    ensures PartialDegrees(g, i + 1, deg, [], 0)
  {
    var succ := Succ(g, g.keys[i]);
    assert succ[..|succ|] == succ;
    forall m, b | 0 <= m < i + 1 && b in Succ(g, g.keys[m]) ensures b in deg {
      if m == i {
        assert b in Elems(succ);
      }
    }
    forall v | v in deg ensures deg[v] == |SeenIncluders(g, i + 1, v)| {
      SeenIncludersStep(g, i, v);
    }
  }

  /** Counting the includes of key `i`: the body of the outer loop of the degree pass. */
  method CountKey(g: Graph, i: nat, deg0: map<Path, int>, order0: seq<Path>)
    returns (deg: map<Path, int>, order: seq<Path>)
    requires GraphValid(g) && i < |g.keys|
    requires DegreeTable(g, deg0, order0) && TouchedAll(g, i, deg0) && KeysIn(g, i, deg0)
    requires PartialDegrees(g, i, deg0, [], 0)
    ensures DegreeTable(g, deg, order) && TouchedAll(g, i + 1, deg) && KeysIn(g, i + 1, deg)
    ensures PartialDegrees(g, i + 1, deg, [], 0)
  {
    var k := g.keys[i];
    deg, order := deg0, order0;
    if k !in deg {
      UnseenHasNoIncluders(g, i, deg, k);
      assert k in g.fwd;
      TableSnoc(g, deg, order, k, 0);
      deg := deg[k := 0];
      order := order + [k];
      TouchedGrows(g, i, deg0, deg);
    }
    assert PartialDegrees(g, i, deg, Succ(g, k), 0);
    deg, order := CountIncludes(g, i, deg, order);
    CountKeyDone(g, i, deg);
  }

  /**
   The in-degree pass: for every key in insertion order, the key gets an
   entry of zero if it has none, and each file it includes gets one more.
   `order` is the insertion order of the degree table.
   */
  method InDegrees(g: Graph) returns (deg: map<Path, int>, order: seq<Path>)
    requires GraphValid(g)
    ensures DegreeTable(g, deg, order)
    ensures deg.Keys == Nodes(g)
    ensures forall v | v in deg :: deg[v] == |Preds(g, v)|
  {
    deg := map[];
    order := [];
    var i := 0;
    while i < |g.keys|
      invariant i <= |g.keys|
      invariant DegreeTable(g, deg, order)
      invariant TouchedAll(g, i, deg) && KeysIn(g, i, deg)
      invariant PartialDegrees(g, i, deg, [], 0)
    {
      deg, order := CountKey(g, i, deg, order);
      i := i + 1;
    }
    AllKeysCounted(g, deg, order);
  }

  /** Once every key is counted, the table holds every file with its number of includers. */
  lemma AllKeysCounted(g: Graph, deg: map<Path, int>, order: seq<Path>)
    requires GraphValid(g) && DegreeTable(g, deg, order)
    requires TouchedAll(g, |g.keys|, deg) && KeysIn(g, |g.keys|, deg)
    requires PartialDegrees(g, |g.keys|, deg, [], 0)
    ensures deg.Keys == Nodes(g)
    ensures forall v | v in deg :: deg[v] == |Preds(g, v)|
  {
    forall v | v in deg ensures deg[v] == |Preds(g, v)| {
      SeenIncludersAll(g, v);
    }
    TouchedCoversNodes(g, deg);
  }

  /** The initial queue: the table's files of degree zero, in table order. */
  function ZeroDegree(order: seq<Path>, deg: map<Path, int>): (q: seq<Path>)
    requires Elems(order) <= deg.Keys
    ensures forall v :: v in q <==> v in order && deg[v] == 0
    ensures Distinct(order) ==> Distinct(q)
  {
    if order == [] then []
    else
      var rest := ZeroDegree(order[1..], deg);
      assert order[0] !in order[1..] ==> order[0] !in rest;
      if deg[order[0]] == 0 then [order[0]] + rest else rest
  }

  /** Every file of `out` comes after all the files that include it. */
  ghost predicate IncludersFirst(g: Graph, out: seq<Path>) {
    forall j | 0 <= j < |out| :: Preds(g, out[j]) <= Elems(out[..j])
  }

  /** Output and queue hold no file twice and share none. */
  ghost predicate Apart(result: seq<Path>, queue: seq<Path>) {
    Distinct(result) && Distinct(queue) && Elems(result) !! Elems(queue)
  }

  /**
   Each degree counts the includers of the file not yet emitted, plus one
   while the file still waits in `pending`, the includes of the file just
   emitted that are not yet released.
   */
  ghost predicate Outstanding(g: Graph, deg: map<Path, int>, result: seq<Path>, pending: seq<Path>) {
    forall v | v in deg :: deg[v] == |Preds(g, v) - Elems(result)| + (if v in pending then 1 else 0)
  }

  /** A file has been queued (and maybe emitted) exactly when its degree is zero. */
  ghost predicate ZeroIffSeen(deg: map<Path, int>, result: seq<Path>, queue: seq<Path>) {
    forall v | v in deg :: (v in Elems(result) || v in Elems(queue)) <==> deg[v] == 0
  }

  /** What holds of the sort between any two steps. */
  ghost predicate KahnInv(g: Graph, deg: map<Path, int>, result: seq<Path>, queue: seq<Path>,
                          pending: seq<Path>) {
    && Apart(result, queue)
    && Elems(result) + Elems(queue) <= Nodes(g)
    && deg.Keys == Nodes(g)
    && Outstanding(g, deg, result, pending)
    && ZeroIffSeen(deg, result, queue)
    && IncludersFirst(g, result)
  }

  /** Updating an existing entry leaves the table's domain as it was. */
  lemma UpdateKeepsKeys(deg: map<Path, int>, b: Path, n: int)
    requires b in deg
    ensures deg[b := n].Keys == deg.Keys
  {
  }

  lemma PrefixSnoc(s: seq<Path>, j: nat)
    requires j < |s|
    ensures s[..j + 1] == s[..j] + [s[j]]
  {
  }

  lemma ElemsSnoc(s: seq<Path>, x: Path)
    ensures Elems(s + [x]) == Elems(s) + {x}
  {
  }

  /** A duplicate-free sequence of files of the graph is no longer than the graph. */
  lemma BoundedByNodes(s: seq<Path>, n: set<Path>)
    requires Distinct(s) && Elems(s) <= n
    ensures |s| <= |n|
  {
    forall i | 0 <= i < |s| ensures s[i] in n {
      assert s[i] in Elems(s);
    }
    DistinctSubsetBound(s, n);
  }

  /** Removing one more element `u` of `p` from what is outstanding lowers the count by one. */
  lemma OutstandingStep(p: set<Path>, result: seq<Path>, u: Path)
    requires u !in result
    ensures |p - Elems(result)| == |p - Elems(result + [u])| + (if u in p then 1 else 0)
  {
    ElemsSnoc(result, u);
    if u in p {
      assert p - Elems(result) == (p - Elems(result + [u])) + {u};
    } else {
      assert p - Elems(result) == p - Elems(result + [u]);
    }
  }

  lemma NoneOutstanding(p: set<Path>, e: set<Path>)
    requires |p - e| == 0
    ensures p <= e
  {
    assert p - e == {};
    forall x | x in p ensures x in e {
      assert x !in p - e;
    }
  }

  lemma SomeOutstanding(p: set<Path>, e: set<Path>)
    requires |p - e| != 0
    ensures !(p <= e)
  {
    var x :| x in p - e;
  }

  lemma IncludersFirstSnoc(g: Graph, result: seq<Path>, u: Path)
    requires IncludersFirst(g, result) && Preds(g, u) <= Elems(result)
    ensures IncludersFirst(g, result + [u])
  {
    var r2 := result + [u];
    forall j | 0 <= j < |r2| ensures Preds(g, r2[j]) <= Elems(r2[..j]) {
      if j < |result| {
        assert r2[..j] == result[..j];
      } else {
        assert r2[..j] == result;
      }
    }
  }

  /** Moving the head of the queue to the output keeps the two apart and their union unchanged. */
  lemma ApartEmit(result: seq<Path>, queue: seq<Path>)
    requires Apart(result, queue) && queue != []
    ensures Apart(result + [queue[0]], queue[1..])
    ensures Elems(result + [queue[0]]) + Elems(queue[1..]) == Elems(result) + Elems(queue)
    ensures queue[0] !in result
  {
    var u := queue[0];
    assert u in Elems(queue);
    assert queue == [u] + queue[1..];
    assert Elems(queue) == {u} + Elems(queue[1..]);
    ElemsSnoc(result, u);
    assert u !in Elems(queue[1..]) by {
      var t := queue[1..];
      forall m | 0 <= m < |t| ensures t[m] != u {
        assert t[m] == queue[m + 1];
      }
    }
    DistinctSnoc(result, u);
  }

  /** Emitting the head `u` of the queue, whose includers are all emitted, makes its includes pending. */
  lemma Emit(g: Graph, deg: map<Path, int>, result: seq<Path>, queue: seq<Path>)
    requires GraphValid(g) && KahnInv(g, deg, result, queue, []) && queue != []
    ensures KahnInv(g, deg, result + [queue[0]], queue[1..], Succ(g, queue[0]))
  {
    var u := queue[0];
    var r2 := result + [u];
    ApartEmit(result, queue);
    assert u in Elems(queue);
    assert deg[u] == |Preds(g, u) - Elems(result)|;
    NoneOutstanding(Preds(g, u), Elems(result));
    IncludersFirstSnoc(g, result, u);
    forall v | v in deg
      ensures deg[v] == |Preds(g, v) - Elems(r2)| + (if v in Succ(g, u) then 1 else 0)
    {
      EdgeFacts(g, u, v);
      OutstandingStep(Preds(g, v), result, u);
    }
  }

  lemma NotInSuffix(succ: seq<Path>, j: nat)
    requires Distinct(succ) && j < |succ|
    ensures succ[j..] == [succ[j]] + succ[j + 1..]
    ensures succ[j] !in succ[j + 1..]
  {
    assert succ[j..] == [succ[j]] + succ[j + 1..];
    var t := succ[j + 1..];
    forall m | 0 <= m < |t| ensures t[m] != succ[j] {
      assert t[m] == succ[j + 1 + m];
    }
  }

  /** Releasing the pending include `succ[j]` takes one from its degree. */
  lemma OutstandingRelease(g: Graph, deg: map<Path, int>, result: seq<Path>, succ: seq<Path>, j: nat,
                           b: Path, deg2: map<Path, int>)
    requires j < |succ| && Distinct(succ) && b == succ[j]
    requires Outstanding(g, deg, result, succ[j..]) && b in deg
    requires deg2 == deg[b := deg[b] - 1]
    ensures Outstanding(g, deg2, result, succ[j + 1..])
    ensures deg[b] >= 1
  {
    NotInSuffix(succ, j);
    forall v | v in deg2
      ensures deg2[v] == |Preds(g, v) - Elems(result)| + (if v in succ[j + 1..] then 1 else 0)
    {
      if v != b {
        assert v in succ[j..] <==> v in succ[j + 1..];
      }
    }
  }

  /** A file whose degree drops to zero joins the back of the queue. */
  lemma ZeroIffRelease(deg: map<Path, int>, result: seq<Path>, queue: seq<Path>, b: Path,
                       deg2: map<Path, int>, queue2: seq<Path>)
    requires Apart(result, queue) && ZeroIffSeen(deg, result, queue)
    requires b in deg && deg[b] >= 1
    requires deg2 == deg[b := deg[b] - 1]
    requires queue2 == if deg2[b] == 0 then queue + [b] else queue
    ensures Apart(result, queue2) && ZeroIffSeen(deg2, result, queue2)
    ensures Elems(queue2) <= Elems(queue) + {b}
  {
    assert b !in Elems(result) && b !in Elems(queue);
    if deg2[b] == 0 {
      ElemsSnoc(queue, b);
      DistinctSnoc(queue, b);
    }
  }

  /** One release step of the inner loop keeps the invariant. */
  lemma Release(g: Graph, deg: map<Path, int>, result: seq<Path>, queue: seq<Path>,
                succ: seq<Path>, j: nat, b: Path, deg2: map<Path, int>, queue2: seq<Path>)
    requires j < |succ| && Distinct(succ) && b == succ[j]
    requires KahnInv(g, deg, result, queue, succ[j..]) && b in deg
    requires deg2 == deg[b := deg[b] - 1]
    requires queue2 == if deg2[b] == 0 then queue + [b] else queue
    ensures KahnInv(g, deg2, result, queue2, succ[j + 1..])
  {
    OutstandingRelease(g, deg, result, succ, j, b, deg2);
    ZeroIffRelease(deg, result, queue, b, deg2, queue2);
    UpdateKeepsKeys(deg, b, deg[b] - 1);
    assert Elems(result) + Elems(queue2) <= Nodes(g);
    assert IncludersFirst(g, result);
  }

  /** The sort's starting point: nothing emitted, and the zero-degree files queued. */
  lemma Seeded(g: Graph, deg: map<Path, int>, order: seq<Path>)
    requires DegreeTable(g, deg, order) && deg.Keys == Nodes(g)
    requires forall v | v in deg :: deg[v] == |Preds(g, v)|
    ensures KahnInv(g, deg, [], ZeroDegree(order, deg), [])
  {
    var queue := ZeroDegree(order, deg);
    assert Elems([]) == {};
    forall v | v in deg ensures (v in Elems([]) || v in Elems(queue)) <==> deg[v] == 0 {
      assert v in Elems(order);
    }
  }

  /** Releasing every include of the file `u` just emitted. */
  method ReleaseIncludes(g: Graph, deg0: map<Path, int>, result: seq<Path>, queue0: seq<Path>, u: Path)
    returns (deg: map<Path, int>, queue: seq<Path>)
    requires Distinct(Succ(g, u)) && Elems(Succ(g, u)) <= Nodes(g)
    requires KahnInv(g, deg0, result, queue0, Succ(g, u))
    ensures KahnInv(g, deg, result, queue, [])
  {
    deg, queue := deg0, queue0;
    var succ := Succ(g, u);
    assert succ[0..] == succ;
    var j := 0;
    while j < |succ|
      invariant j <= |succ|
      invariant KahnInv(g, deg, result, queue, succ[j..])
    {
      var b := succ[j];
      assert b in Elems(succ);
      var deg2 := deg[b := deg[b] - 1];
      var queue2 := if deg2[b] == 0 then queue + [b] else queue;
      Release(g, deg, result, queue, succ, j, b, deg2, queue2);
      deg, queue := deg2, queue2;
      j := j + 1;
    }
    assert succ[j..] == [];
  }

  /** With the queue empty, a file is listed exactly when all its includers are. */
  lemma Drained(g: Graph, deg: map<Path, int>, result: seq<Path>)
    requires KahnInv(g, deg, result, [], [])
    ensures forall v | v in Nodes(g) :: v in result <==> Preds(g, v) <= Elems(result)
  {
    forall v | v in Nodes(g) ensures v in result <==> Preds(g, v) <= Elems(result) {
      assert v in Elems(result) <==> v in result;
      if v in result {
        NoneOutstanding(Preds(g, v), Elems(result));
      } else {
        SomeOutstanding(Preds(g, v), Elems(result));
      }
    }
  }

  /**
   get_build_order: a duplicate-free list of files of the graph in which
   every file follows all the files that include it, and which holds a file
   exactly when it holds all of that file's includers.
   */
  method GetBuildOrder(g: Graph) returns (result: seq<Path>)
    requires GraphValid(g)
    ensures Distinct(result)
    ensures Elems(result) <= Nodes(g)
    ensures IncludersFirst(g, result)
    ensures forall v | v in Nodes(g) :: v in result <==> Preds(g, v) <= Elems(result)
  {
    var deg, order := InDegrees(g);
    var queue := ZeroDegree(order, deg);
    result := [];
    Seeded(g, deg, order);
    while queue != []
      invariant KahnInv(g, deg, result, queue, [])
      decreases |Nodes(g)| - |result|
    {
      var u := queue[0];
      Emit(g, deg, result, queue);
      result := result + [u];
      queue := queue[1..];
      BoundedByNodes(result, Nodes(g));
      IncludesAreNodes(g, u);
      deg, queue := ReleaseIncludes(g, deg, result, queue, u);
    }
    Drained(g, deg, result);
  }

  /** Walking a path backwards through listed files keeps to strictly earlier positions. */
  lemma {:induction false} ListedWalkAscends(g: Graph, result: seq<Path>, c: seq<Path>, k: nat)
    requires GraphValid(g) && IncludersFirst(g, result)
    requires IsWalk(g, c) && k < |c| && c[k] in result
    ensures c[0] in result && IndexOf(result, c[0]) + k <= IndexOf(result, c[k])
  {
    if k > 0 {
      var p := IndexOf(result, c[k]);
      assert c[k] in Succ(g, c[k - 1]);
      EdgeFacts(g, c[k - 1], c[k]);
      assert c[k - 1] in Elems(result[..p]);
      var q :| 0 <= q < p && result[..p][q] == c[k - 1];
      assert result[q] == c[k - 1];
      ListedWalkAscends(g, result, c, k - 1);
    }
  }

  /** No file on a cycle of includes is ever listed in an order that puts includers first. */
  lemma CycleNeverListed(g: Graph, result: seq<Path>, c: seq<Path>, k: nat)
    requires GraphValid(g) && IncludersFirst(g, result)
    requires IsCycle(g, c) && k < |c|
    ensures c[k] !in result
  {
    if c[k] in result {
      ListedWalkAscends(g, result, c, k);
      ListedWalkAscends(g, result, c, |c| - 1);
    }
  }

  /**
   From an unlisted file, in an order listing exactly the files whose
   includers are all listed, one can step backwards to an unlisted
   includer as often as desired.
   */
  lemma {:induction false} UnlistedIncluders(g: Graph, result: seq<Path>, v: Path, n: nat)
    returns (w: seq<Path>)
    requires GraphValid(g)
    requires forall x | x in Nodes(g) :: x in result <==> Preds(g, x) <= Elems(result)
    requires v in Nodes(g) && v !in result
    ensures |w| == n + 1 && w[0] == v
    ensures forall m | 0 <= m < |w| :: w[m] in Nodes(g) && w[m] !in result
    ensures forall m | 0 <= m < n :: w[m] in Succ(g, w[m + 1])
  {
    if n == 0 {
      w := [v];
    } else {
      var w0 := UnlistedIncluders(g, result, v, n - 1);
      var x := w0[n - 1];
      assert !(Preds(g, x) <= Elems(result));
      var u :| u in Preds(g, x) && u !in Elems(result);
      EdgeFacts(g, u, x);
      w := w0 + [u];
      assert w[n] == u && w[n - 1] == x;
    }
  }

  /** A closed walk read backwards off a repetition in a backwards walk. */
  lemma RepeatGivesCycle(g: Graph, w: seq<Path>, i: nat, j: nat)
    requires i < j < |w| && w[i] == w[j]
    requires forall m | 0 <= m < |w| - 1 :: w[m] in Succ(g, w[m + 1])
    ensures !Acyclic(g)
  {
    var c := seq(j - i + 1, m requires 0 <= m <= j - i => w[j - m]);
    forall m | 0 <= m < |c| - 1 ensures c[m + 1] in Succ(g, c[m]) {
      assert c[m] == w[j - m] && c[m + 1] == w[j - m - 1];
    }
    assert IsCycle(g, c);
  }

  /** On an acyclic graph, such an order lists every file of the graph. */
  lemma AcyclicListsAll(g: Graph, result: seq<Path>)
    requires GraphValid(g) && Acyclic(g)
    requires forall x | x in Nodes(g) :: x in result <==> Preds(g, x) <= Elems(result)
    ensures Nodes(g) <= Elems(result)
  {
    forall v | v in Nodes(g) ensures v in Elems(result) {
      if v !in result {
        var w := UnlistedIncluders(g, result, v, |Nodes(g)|);
        if Distinct(w) {
          assert Elems(w) <= Nodes(g);
          BoundedByNodes(w, Nodes(g));
        } else {
          var i, j :| 0 <= i < j < |w| && w[i] == w[j];
          RepeatGivesCycle(g, w, i, j);
        }
      }
    }
  }

  /**
   The build order and the cycle search agree: the order lists every file of
   the graph exactly when the search finds no circular dependency.
   */
  lemma OrderCompleteIffNoCycle(g: Graph, result: seq<Path>)
    requires GraphValid(g)
    requires Elems(result) <= Nodes(g) && IncludersFirst(g, result)
    requires forall x | x in Nodes(g) :: x in result <==> Preds(g, x) <= Elems(result)
    ensures Elems(result) == Nodes(g) <==> FindCircularDependencies(g).None?
  {
    var found := FindCircularDependencies(g);
    if found.None? {
      AcyclicListsAll(g, result);
    } else {
      var c := found.value;
      assert c[1] in Succ(g, c[0]);
      assert c[0] in Nodes(g);
      CycleNeverListed(g, result, c, 0);
    }
  }
}
