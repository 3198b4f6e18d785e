// Expanding test suites (`test_runner.py`): suites list case ids and references
// to other suites; a memoised depth-first walk flattens them and reports the
// first thing wrong, a cycle included.
module SuiteResolver {
  import opened Words

  // ----- the catalog -----

  /** What a suite's JSON value may be. */
  datatype RawSuite = Null | NotAList | NotAllStrings | Entries(items: seq<string>)

  datatype Catalog = Catalog(suites: map<string, RawSuite>, cases: set<string>)

  datatype Error =
    | Cycle(path: seq<string>)
    | UnknownSuite(id: string)
    | NotAnArray(id: string)
    | NotStrings(id: string)
    | NoSuchSuite(id: string, child: string)
    | NoSuchCase(id: string, entry: string)

  datatype Outcome<+T> = Ok(value: T) | Err(error: Error)

  /** An entry that names a suite. */
  predicate IsReference(entry: string) {
    |entry| > 0 && entry[0] == '@'
  }

  predicate Refers(c: Catalog, s: string, t: string) {
    s in c.suites && c.suites[s].Entries? && "@" + t in c.suites[s].items
  }

  /** Every suite is a list of strings, and everything it names exists. */
  ghost predicate WellFormed(c: Catalog) {
    forall s :: s in c.suites ==> SuiteOk(c, s)
  }

  ghost predicate SuiteOk(c: Catalog, s: string)
    requires s in c.suites
  {
    c.suites[s].Entries? && forall e :: e in c.suites[s].items ==> EntryOk(c, e)
  }

  predicate EntryOk(c: Catalog, e: string) {
    if IsReference(e) then e[1..] in c.suites else e in c.cases
  }

  /** Each suite on the path refers to the next. */
  predicate Path(c: Catalog, p: seq<string>) {
    forall i {:trigger p[i]} :: 0 <= i < |p| - 1 ==> Refers(c, p[i], p[i + 1])
  }

  /** The path comes back to where it has been. */
  predicate Loops(p: seq<string>) {
    |p| >= 2 && p[|p| - 1] in p[..|p| - 1]
  }

  ghost predicate Acyclic(c: Catalog) {
    forall p :: Path(c, p) ==> !Loops(p)
  }

  // ----- flattening -----

  /** The cases of a suite in order, references replaced by what they name, following at most `depth` levels. */
  function Flat(c: Catalog, id: string, depth: nat): Option<seq<string>>
    decreases depth, 0
  {
    if depth == 0 || id !in c.suites || !c.suites[id].Entries? then None
    else FlatItems(c, c.suites[id].items, |c.suites[id].items|, depth - 1)
  }

  /** One entry, flattened. */
  function FlatEntry(c: Catalog, e: string, depth: nat): Option<seq<string>>
    decreases depth, 1
  {
    if IsReference(e) then Flat(c, e[1..], depth) else if e in c.cases then Some([e]) else None
  }

  /** The first `n` entries, flattened. */
  function FlatItems(c: Catalog, items: seq<string>, n: nat, depth: nat): Option<seq<string>>
    requires n <= |items|
    decreases depth, n + 1
  {
    if n == 0 then Some([])
    else
      var rest := FlatItems(c, items, n - 1, depth);
      var here := FlatEntry(c, items[n - 1], depth);
      if rest.Some? && here.Some? then Some(rest.value + here.value) else None
  }

  ghost predicate FlattensTo(c: Catalog, id: string, cases: seq<string>) {
    exists depth: nat :: Flat(c, id, depth) == Some(cases)
  }

  lemma {:induction false} DeeperIsSame(c: Catalog, id: string, d: nat, e: nat)
    requires d <= e && Flat(c, id, d).Some?
    ensures Flat(c, id, e) == Flat(c, id, d)
    decreases d, 0
  {
    DeeperItemsAreSame(c, c.suites[id].items, |c.suites[id].items|, d - 1, e - 1);
  }

  lemma {:induction false} DeeperItemsAreSame(c: Catalog, items: seq<string>, n: nat, d: nat, e: nat)
    requires n <= |items| && d <= e && FlatItems(c, items, n, d).Some?
    ensures FlatItems(c, items, n, e) == FlatItems(c, items, n, d)
    decreases d, n
  {
    if n > 0 {
      DeeperItemsAreSame(c, items, n - 1, d, e);
      if IsReference(items[n - 1]) {
        DeeperIsSame(c, items[n - 1][1..], d, e);
      }
    }
  }

  /** A suite has at most one flattening: no order of resolution can give another. */
  lemma FlatteningIsUnique(c: Catalog, id: string, x: seq<string>, y: seq<string>)
    requires FlattensTo(c, id, x) && FlattensTo(c, id, y)
    ensures x == y
  {
    var d: nat :| Flat(c, id, d) == Some(x);
    var e: nat :| Flat(c, id, e) == Some(y);
    if d <= e {
      DeeperIsSame(c, id, d, e);
    } else {
      DeeperIsSame(c, id, e, d);
    }
  }

  // ----- flattening as replacement -----

  /** `after` is `before` with the reference at `i` replaced by what the suite it names lists. */
  predicate ReplacedAt(c: Catalog, before: seq<string>, after: seq<string>, i: nat) {
    && i < |before| && IsReference(before[i])
    && before[i][1..] in c.suites && c.suites[before[i][1..]].Entries?
    && after == before[..i] + c.suites[before[i][1..]].items + before[i + 1..]
  }

  ghost predicate Replaced(c: Catalog, before: seq<string>, after: seq<string>) {
    exists i: nat :: ReplacedAt(c, before, after, i)
  }

  /** `items` becomes `cases` by replacing `n` references, one after another, in any order. */
  ghost predicate BecomesIn(c: Catalog, items: seq<string>, cases: seq<string>, n: nat)
    decreases n
  {
    if n == 0 then items == cases
    else exists mid :: Replaced(c, items, mid) && BecomesIn(c, mid, cases, n - 1)
  }

  /** Nothing is left to replace: every entry is a case that exists. */
  predicate AllCases(c: Catalog, items: seq<string>) {
    forall e :: e in items ==> !IsReference(e) && e in c.cases
  }

  /** `items` comes down to the list `cases` of existing cases. */
  ghost predicate Becomes(c: Catalog, items: seq<string>, cases: seq<string>) {
    AllCases(c, cases) && exists n: nat :: BecomesIn(c, items, cases, n)
  }

  /** What a suite stands for: the cases its entries come down to. */
  ghost predicate StandsFor(c: Catalog, id: string, cases: seq<string>) {
    id in c.suites && c.suites[id].Entries? && Becomes(c, c.suites[id].items, cases)
  }

  lemma ReplacedInContext(c: Catalog, pre: seq<string>, x: seq<string>, y: seq<string>, post: seq<string>)
    requires Replaced(c, x, y)
    ensures Replaced(c, pre + x + post, pre + y + post)
  {
    var i: nat :| ReplacedAt(c, x, y, i);
    var before, listed := pre + x + post, c.suites[x[i][1..]].items;
    assert before[|pre| + i] == x[i];
    assert before[..|pre| + i] == pre + x[..i] && before[|pre| + i + 1..] == x[i + 1..] + post;
    assert pre + y + post == before[..|pre| + i] + listed + before[|pre| + i + 1..];
    assert ReplacedAt(c, before, pre + y + post, |pre| + i);
  }

  lemma {:induction false} BecomesInContext(c: Catalog, pre: seq<string>, x: seq<string>, y: seq<string>, post: seq<string>, n: nat)
    requires BecomesIn(c, x, y, n)
    ensures BecomesIn(c, pre + x + post, pre + y + post, n)
    decreases n
  {
    if n > 0 {
      var mid :| Replaced(c, x, mid) && BecomesIn(c, mid, y, n - 1);
      ReplacedInContext(c, pre, x, mid, post);
      BecomesInContext(c, pre, mid, y, post, n - 1);
    }
  }

  lemma BecomesAfter(c: Catalog, x: seq<string>, y: seq<string>, z: seq<string>, n: nat)
    requires Replaced(c, x, y) && BecomesIn(c, y, z, n)
    ensures BecomesIn(c, x, z, n + 1)
  {
    assert BecomesIn(c, y, z, (n + 1) - 1);
  }

  lemma {:induction false} BecomesThen(c: Catalog, x: seq<string>, y: seq<string>, z: seq<string>, m: nat, n: nat)
    requires BecomesIn(c, x, y, m) && BecomesIn(c, y, z, n)
    ensures BecomesIn(c, x, z, m + n)
    decreases m
  {
    if m > 0 {
      var mid :| Replaced(c, x, mid) && BecomesIn(c, mid, y, m - 1);
      BecomesThen(c, mid, y, z, m - 1, n);
    }
  }

  /** A reference behind `done` becomes what its suite lists, and that becomes `cases`. */
  lemma ReferenceBecomes(c: Catalog, done: seq<string>, e: string, cases: seq<string>, n: nat)
    requires IsReference(e) && e[1..] in c.suites && c.suites[e[1..]].Entries?
    requires BecomesIn(c, c.suites[e[1..]].items, cases, n)
    ensures BecomesIn(c, done + [e], done + cases, n + 1)
  {
    var listed := c.suites[e[1..]].items;
    BecomesInContext(c, done, listed, cases, [], n);
    assert done + listed + [] == done + listed && done + cases + [] == done + cases;
    assert (done + [e])[..|done|] == done && (done + [e])[|done| + 1..] == [];
    assert done + listed == done + listed + [];
    assert ReplacedAt(c, done + [e], done + listed, |done|);
    BecomesAfter(c, done + [e], done + listed, done + cases, n);
  }

  /** What one entry flattens to, behind `done`. */
  lemma {:induction false} EntryBecomes(c: Catalog, done: seq<string>, e: string, d: nat) returns (k: nat)
    requires FlatEntry(c, e, d).Some?
    ensures AllCases(c, FlatEntry(c, e, d).value)
    ensures BecomesIn(c, done + [e], done + FlatEntry(c, e, d).value, k)
    decreases d, 0
  {
    k := 0;
    if IsReference(e) {
      FlatIsSuite(c, e[1..], d);
      var listed := c.suites[e[1..]].items;
      var j := FlatBecomes(c, listed, |listed|, d - 1);
      assert listed[..|listed|] == listed;
      ReferenceBecomes(c, done, e, FlatEntry(c, e, d).value, j);
      k := j + 1;
    }
  }

  lemma BecomesBehind(c: Catalog, init: seq<string>, rest: seq<string>, e: string, here: seq<string>, i: nat, j: nat) returns (k: nat)
    requires BecomesIn(c, init, rest, i) && AllCases(c, rest)
    requires BecomesIn(c, rest + [e], rest + here, j) && AllCases(c, here)
    ensures BecomesIn(c, init + [e], rest + here, k) && AllCases(c, rest + here)
  {
    BecomesInContext(c, [], init, rest, [e], i);
    assert [] + init + [e] == init + [e] && [] + rest + [e] == rest + [e];
    BecomesThen(c, init + [e], rest + [e], rest + here, i, j);
    k := i + j;
  }

  /** What the walk collects, replacement collects. */
  lemma {:induction false} FlatBecomes(c: Catalog, items: seq<string>, n: nat, d: nat) returns (k: nat)
    requires n <= |items| && FlatItems(c, items, n, d).Some?
    ensures AllCases(c, FlatItems(c, items, n, d).value)
    ensures BecomesIn(c, items[..n], FlatItems(c, items, n, d).value, k)
    decreases d, n + 1
  {
    k := 0;
    if n > 0 {
      var e, rest := items[n - 1], FlatItems(c, items, n - 1, d).value;
      var i := FlatBecomes(c, items, n - 1, d);
      var j := EntryBecomes(c, rest, e, d);
      assert items[..n] == items[..n - 1] + [e];
      k := BecomesBehind(c, items[..n - 1], rest, e, FlatEntry(c, e, d).value, i, j);
    }
  }

  /** Entries behind the first `n` do not matter to them. */
  lemma {:induction false} FlatPrefix(c: Catalog, a: seq<string>, b: seq<string>, n: nat, d: nat)
    requires n <= |a|
    ensures FlatItems(c, a + b, n, d) == FlatItems(c, a, n, d)
    decreases n
  {
    if n > 0 {
      FlatPrefix(c, a, b, n - 1, d);
    }
  }

  function Both(x: Option<seq<string>>, y: Option<seq<string>>): Option<seq<string>> {
    if x.Some? && y.Some? then Some(x.value + y.value) else None
  }

  function FlatList(c: Catalog, items: seq<string>, d: nat): Option<seq<string>> {
    FlatItems(c, items, |items|, d)
  }

  lemma Regroup(x: Option<seq<string>>, y: Option<seq<string>>, z: Option<seq<string>>)
    ensures Both(Both(x, y), z) == Both(x, Both(y, z))
  {
    if x.Some? && y.Some? && z.Some? {
      assert x.value + y.value + z.value == x.value + (y.value + z.value);
    }
  }

  lemma FlatOneMore(c: Catalog, items: seq<string>, e: string, d: nat)
    ensures FlatList(c, items + [e], d) == Both(FlatList(c, items, d), FlatEntry(c, e, d))
  {
    FlatPrefix(c, items, [e], |items|, d);
  }

  /** Lists flatten part by part. */
  lemma {:induction false} FlatParts(c: Catalog, a: seq<string>, b: seq<string>, d: nat)
    ensures FlatList(c, a + b, d) == Both(FlatList(c, a, d), FlatList(c, b, d))
    decreases |b|
  {
    if b == [] {
      assert a + b == a;
      if FlatList(c, a, d).Some? {
        assert FlatList(c, a, d).value + [] == FlatList(c, a, d).value;
      }
    } else {
      var init, last := b[..|b| - 1], b[|b| - 1];
      FlatParts(c, a, init, d);
      assert a + b == a + init + [last] && b == init + [last];
      FlatOneMore(c, a + init, last, d);
      FlatOneMore(c, init, last, d);
      Regroup(FlatList(c, a, d), FlatList(c, init, d), FlatEntry(c, last, d));
    }
  }

  lemma FlatThreeParts(c: Catalog, a: seq<string>, x: seq<string>, b: seq<string>, d: nat)
    ensures FlatList(c, a + x + b, d) == Both(Both(FlatList(c, a, d), FlatList(c, x, d)), FlatList(c, b, d))
  {
    FlatParts(c, a + x, b, d);
    FlatParts(c, a, x, d);
  }

  lemma FlatOfReference(c: Catalog, e: string, d: nat)
    requires IsReference(e) && e[1..] in c.suites && c.suites[e[1..]].Entries?
    ensures FlatList(c, [e], d + 1) == FlatList(c, c.suites[e[1..]].items, d)
  {
    assert FlatItems(c, [e], 0, d + 1) == Some([]);
    assert FlatEntry(c, e, d + 1) == Flat(c, e[1..], d + 1);
    if FlatEntry(c, e, d + 1).Some? {
      assert [] + FlatEntry(c, e, d + 1).value == FlatEntry(c, e, d + 1).value;
    }
  }

  lemma ReferenceIsDeep(c: Catalog, e: string)
    requires IsReference(e)
    ensures FlatList(c, [e], 0) == None
  {
    assert FlatEntry(c, e, 0) == None;
  }

  lemma DeeperList(c: Catalog, items: seq<string>, d: nat)
    requires FlatList(c, items, d).Some?
    ensures FlatList(c, items, d + 1) == FlatList(c, items, d)
  {
    DeeperItemsAreSame(c, items, |items|, d, d + 1);
  }

  /** A list flattens to what it flattens to with a reference replaced, one level deeper. */
  lemma ReplacedFlattens(c: Catalog, before: seq<string>, after: seq<string>, d: nat)
    requires Replaced(c, before, after) && FlatList(c, after, d).Some?
    ensures FlatList(c, before, d + 1) == FlatList(c, after, d)
  {
    var i: nat :| ReplacedAt(c, before, after, i);
    var a, e, b := before[..i], before[i], before[i + 1..];
    assert before == a + [e] + b;
    FlatThreeParts(c, a, c.suites[e[1..]].items, b, d);
    FlatThreeParts(c, a, [e], b, d + 1);
    DeeperList(c, a, d);
    FlatOfReference(c, e, d);
    DeeperList(c, b, d);
  }

  lemma {:induction false} CasesFlatten(c: Catalog, items: seq<string>, n: nat)
    requires AllCases(c, items) && n <= |items|
    ensures FlatItems(c, items, n, 0) == Some(items[..n])
  {
    if n > 0 {
      CasesFlatten(c, items, n - 1);
      assert items[n - 1] in items;
      assert items[..n] == items[..n - 1] + [items[n - 1]];
    }
  }

  /** What replacement comes down to, the walk collects. */
  lemma {:induction false} BecomesFlat(c: Catalog, items: seq<string>, cases: seq<string>, n: nat)
    requires BecomesIn(c, items, cases, n) && AllCases(c, cases)
    ensures FlatList(c, items, n) == Some(cases)
    decreases n
  {
    if n == 0 {
      CasesFlatten(c, cases, |cases|);
      assert cases[..|cases|] == cases;
    } else {
      var mid :| Replaced(c, items, mid) && BecomesIn(c, mid, cases, n - 1);
      BecomesFlat(c, mid, cases, n - 1);
      ReplacedFlattens(c, items, mid, n - 1);
    }
  }

  /** The walk finds exactly what replacing references, in any order, comes down to. */
  lemma FlattensIff(c: Catalog, id: string, cases: seq<string>)
    ensures FlattensTo(c, id, cases) <==> StandsFor(c, id, cases)
  {
    if FlattensTo(c, id, cases) {
      var d: nat :| Flat(c, id, d) == Some(cases);
      var items := c.suites[id].items;
      var k := FlatBecomes(c, items, |items|, d - 1);
      assert items[..|items|] == items;
    }
    if StandsFor(c, id, cases) {
      var n: nat :| BecomesIn(c, c.suites[id].items, cases, n);
      BecomesFlat(c, c.suites[id].items, cases, n);
      assert Flat(c, id, n + 1) == Some(cases);
    }
  }

  /** A suite without references stands for its own entries. */
  lemma PlainSuite(c: Catalog, id: string, cases: seq<string>)
    requires id in c.suites && c.suites[id].Entries? && AllCases(c, c.suites[id].items)
    ensures FlattensTo(c, id, cases) <==> cases == c.suites[id].items
  {
    var items := c.suites[id].items;
    assert BecomesIn(c, items, items, 0);
    FlattensIff(c, id, items);
    if FlattensTo(c, id, cases) {
      FlatteningIsUnique(c, id, cases, items);
    }
  }

  lemma {:induction false} ListIsUnique(c: Catalog, items: seq<string>, x: seq<string>, y: seq<string>, m: nat, n: nat)
    requires BecomesIn(c, items, x, m) && BecomesIn(c, items, y, n) && AllCases(c, x) && AllCases(c, y)
    ensures x == y
  {
    BecomesFlat(c, items, x, m);
    BecomesFlat(c, items, y, n);
    DeeperItemsAreSame(c, items, |items|, if m <= n then m else n, if m <= n then n else m);
  }

  /** A reference stands for exactly the entries of the suite it names, in its place. */
  lemma ReferenceIsItsEntries(c: Catalog, a: seq<string>, t: string, b: seq<string>, cases: seq<string>)
    requires t in c.suites && c.suites[t].Entries?
    ensures Becomes(c, a + ["@" + t] + b, cases) <==> Becomes(c, a + c.suites[t].items + b, cases)
  {
    var e := "@" + t;
    var before, after := a + [e] + b, a + c.suites[t].items + b;
    assert e[1..] == t;
    assert before[..|a|] == a && before[|a|] == e && before[|a| + 1..] == b;
    assert ReplacedAt(c, before, after, |a|);
    if Becomes(c, after, cases) {
      var n: nat :| BecomesIn(c, after, cases, n);
      BecomesAfter(c, before, after, cases, n);
    }
    if Becomes(c, before, cases) {
      var n: nat :| BecomesIn(c, before, cases, n);
      BecomesFlat(c, before, cases, n);
      ReferenceOpens(c, a, e, b, n);
      var k := FlatBecomes(c, after, |after|, n);
      assert after[..|after|] == after;
    }
  }

  /** Opening a reference changes nothing of what a list flattens to. */
  lemma ReferenceOpens(c: Catalog, a: seq<string>, e: string, b: seq<string>, d: nat)
    requires IsReference(e) && e[1..] in c.suites && c.suites[e[1..]].Entries?
    requires FlatList(c, a + [e] + b, d).Some?
    ensures FlatList(c, a + c.suites[e[1..]].items + b, d) == FlatList(c, a + [e] + b, d)
  {
    var listed := c.suites[e[1..]].items;
    FlatThreeParts(c, a, [e], b, d);
    ReferenceIsDeep(c, e);
    FlatOfReference(c, e, d - 1);
    DeeperList(c, listed, d - 1);
    FlatThreeParts(c, a, listed, b, d);
  }

  // ----- what success and failure mean -----

  lemma {:induction false} ItemFlattens(c: Catalog, items: seq<string>, n: nat, d: nat, k: nat)
    requires k < n <= |items| && FlatItems(c, items, n, d).Some?
    ensures EntryOk(c, items[k])
    ensures IsReference(items[k]) ==> Flat(c, items[k][1..], d).Some?
    decreases n
  {
    assert FlatEntry(c, items[n - 1], d).Some?;
    if k < n - 1 {
      ItemFlattens(c, items, n - 1, d, k);
    } else if IsReference(items[k]) {
      FlatIsSuite(c, items[k][1..], d);
    }
  }

  lemma FlatIsSuite(c: Catalog, id: string, d: nat)
    requires Flat(c, id, d).Some?
    ensures d > 0 && id in c.suites && c.suites[id].Entries?
  {
  }

  /** A reference flattens at a smaller depth. */
  lemma ReferenceFlattens(c: Catalog, s: string, t: string, d: nat)
    requires Refers(c, s, t) && Flat(c, s, d).Some?
    ensures d > 0 && Flat(c, t, d - 1).Some?
  {
    var items := c.suites[s].items;
    var k :| 0 <= k < |items| && items[k] == "@" + t;
    ItemFlattens(c, items, |items|, d - 1, k);
  }

  lemma {:induction false} PathFlattens(c: Catalog, p: seq<string>, d: nat, k: nat)
    requires Path(c, p) && k < |p| && Flat(c, p[0], d).Some?
    ensures k <= d && Flat(c, p[k], d - k).Some?
  {
    if k > 0 {
      PathFlattens(c, p, d, k - 1);
      assert Refers(c, p[k - 1], p[k - 1 + 1]);
      ReferenceFlattens(c, p[k - 1], p[k], d - (k - 1));
    }
  }

  /** A suite on a cycle has no flattening: each turn would need less depth. */
  lemma {:induction false} CycleHasNoFlattening(c: Catalog, p: seq<string>, d: nat)
    requires Path(c, p) && |p| >= 2 && p[|p| - 1] == p[0]
    ensures Flat(c, p[0], d).None?
    decreases d
  {
    if Flat(c, p[0], d).Some? {
      PathFlattens(c, p, d, |p| - 1);
      CycleHasNoFlattening(c, p, d - (|p| - 1));
    }
  }

  /** If every suite flattens, the catalog is in order. */
  lemma FlatteningNeeds(c: Catalog, resolved: map<string, seq<string>>)
    requires resolved.Keys == c.suites.Keys
    requires forall s :: s in resolved ==> FlattensTo(c, s, resolved[s])
    ensures WellFormed(c) && Acyclic(c)
  {
    forall s | s in c.suites ensures SuiteOk(c, s) {
      FlatteningNeedsSuite(c, s, resolved[s]);
    }
    forall p | Path(c, p) ensures !Loops(p) {
      if Loops(p) {
        var i :| 0 <= i < |p| - 1 && p[i] == p[|p| - 1];
        assert Refers(c, p[i], p[i + 1]);
        NoCycleFrom(c, p, i, resolved[p[i]]);
      }
    }
  }

  lemma FlatteningNeedsSuite(c: Catalog, s: string, cases: seq<string>)
    requires s in c.suites && FlattensTo(c, s, cases)
    ensures SuiteOk(c, s)
  {
    var d: nat :| Flat(c, s, d) == Some(cases);
    var items := c.suites[s].items;
    forall e | e in items ensures EntryOk(c, e) {
      var k :| 0 <= k < |items| && items[k] == e;
      ItemFlattens(c, items, |items|, d - 1, k);
    }
  }

  lemma NoCycleFrom(c: Catalog, p: seq<string>, i: nat, cases: seq<string>)
    requires Path(c, p) && i < |p| - 1 && p[i] == p[|p| - 1]
    ensures !FlattensTo(c, p[i], cases)
  {
    var q := p[i..];
    forall j | 0 <= j < |q| - 1 ensures Refers(c, q[j], q[j + 1]) {
      assert q[j] == p[i + j] && q[j + 1] == p[i + j + 1];
    }
    forall d: nat ensures Flat(c, p[i], d) != Some(cases) {
      CycleHasNoFlattening(c, q, d);
    }
  }

  /** The reported error is really there. */
  predicate Explains(c: Catalog, e: Error) {
    match e
    case Cycle(path) => Path(c, path) && Loops(path)
    case UnknownSuite(id) => id in c.suites && c.suites[id].Null?
    case NotAnArray(id) => id in c.suites && c.suites[id].NotAList?
    case NotStrings(id) => id in c.suites && c.suites[id].NotAllStrings?
    case NoSuchSuite(id, child) => Refers(c, id, child) && child !in c.suites
    case NoSuchCase(id, entry) =>
      id in c.suites && c.suites[id].Entries? && entry in c.suites[id].items && !IsReference(entry) && entry !in c.cases
  }

  lemma ErrorIsReal(c: Catalog, e: Error)
    requires Explains(c, e)
    ensures !(WellFormed(c) && Acyclic(c))
  {
    match e
    case Cycle(path) =>
    case NoSuchSuite(id, child) =>
      assert !EntryOk(c, "@" + child);
      assert !SuiteOk(c, id);
    case NoSuchCase(id, entry) =>
      assert !EntryOk(c, entry);
      assert !SuiteOk(c, id);
    case _ =>
      assert !SuiteOk(c, e.id);
  }

  // ----- the resolver -----

  function Elements(p: seq<string>): set<string> {
    set s | s in p
  }

  /** Expanding a suite that is not yet being expanded leaves fewer to expand. */
  lemma FewerLeft(all: set<string>, p: seq<string>, id: string)
    requires id in all && id !in p
    ensures |all - Elements(p + [id])| < |all - Elements(p)|
  {
    assert Elements(p + [id]) == Elements(p) + {id};
    assert all - Elements(p + [id]) == (all - Elements(p)) - {id};
  }

  lemma PathGrows(c: Catalog, p: seq<string>, child: string)
    requires Path(c, p) && |p| > 0 && Refers(c, p[|p| - 1], child)
    ensures Path(c, p + [child])
  {
    var q := p + [child];
    forall i | 0 <= i < |q| - 1 ensures Refers(c, q[i], q[i + 1]) {
      if i < |p| - 1 {
        assert Refers(c, p[i], p[i + 1]);
      }
    }
  }

  lemma ComesBack(p: seq<string>, id: string)
    requires id in p
    ensures Loops(p + [id])
  {
    assert (p + [id])[..|p|] == p;
  }

  ghost predicate EntryFlattensTo(c: Catalog, e: string, cases: seq<string>) {
    exists depth: nat :: FlatEntry(c, e, depth) == Some(cases)
  }

  lemma ReferenceStandsFor(c: Catalog, e: string, cases: seq<string>)
    requires IsReference(e) && FlattensTo(c, e[1..], cases)
    ensures EntryFlattensTo(c, e, cases)
  {
    var d: nat :| Flat(c, e[1..], d) == Some(cases);
    assert FlatEntry(c, e, d) == Some(cases);
  }

  /** A depth that serves both the entries so far and the next. */
  lemma Deepened(c: Catalog, items: seq<string>, n: nat, depth: nat, cases: seq<string>) returns (d: nat)
    requires n < |items| && FlatItems(c, items, n, depth).Some? && EntryFlattensTo(c, items[n], cases)
    ensures FlatItems(c, items, n + 1, d) == Some(FlatItems(c, items, n, depth).value + cases)
  {
    var e: nat :| FlatEntry(c, items[n], e) == Some(cases);
    d := if depth <= e then e else depth;
    DeeperItemsAreSame(c, items, n, depth, d);
    if IsReference(items[n]) {
      DeeperIsSame(c, items[n][1..], e, d);
    }
  }

  class Resolver {
    const catalog: Catalog
    var resolved: map<string, seq<string>>
    var visiting: seq<string>

    constructor (catalog: Catalog)
      ensures this.catalog == catalog && resolved == map[] && visiting == []
    {
      this.catalog, resolved, visiting := catalog, map[], [];
    }

    /** Everything memoised is a flattening. */
    ghost predicate Remembers()
      reads `resolved
    {
      forall s :: s in resolved ==> FlattensTo(catalog, s, resolved[s])
    }

    /** The suites being expanded, each inside the one before. */
    ghost predicate OnPath(id: string)
      reads `visiting
    {
      Path(catalog, visiting + [id])
    }

    ghost predicate OnPathNow()
      reads `visiting
    {
      Path(catalog, visiting)
    }

    /** How many suites could still be entered. */
    ghost function Left(): nat
      reads `visiting
    {
      |catalog.suites.Keys - Elements(visiting)|
    }

    /** `resolve_suite`. */
    method ResolveSuite(id: string) returns (r: Outcome<seq<string>>)
      requires Remembers() && OnPath(id)
      modifies this
      ensures r.Ok? ==> Remembers() && visiting == old(visiting) && old(resolved).Keys <= resolved.Keys
      ensures r.Ok? ==> id in resolved && resolved[id] == r.value
      ensures r.Err? && id in catalog.suites ==> Explains(catalog, r.error)
      ensures id !in catalog.suites && id !in old(visiting) ==> r == Err(UnknownSuite(id))
      decreases Left(), 1
    {
      if id in resolved {
        return Ok(resolved[id]);
      }
      if id in visiting {
        ComesBack(visiting, id);
        return Err(Cycle(visiting + [id]));
      }
      if id !in catalog.suites {
        return Err(UnknownSuite(id));
      }
      match catalog.suites[id]
      case Null => return Err(UnknownSuite(id));
      case NotAList => return Err(NotAnArray(id));
      case NotAllStrings => return Err(NotStrings(id));
      case Entries(items) => r := Expand(id, items);
    }

    /** The part of `resolve_suite` that walks the entries. */
    method Expand(id: string, items: seq<string>) returns (r: Outcome<seq<string>>)
      requires Remembers() && OnPath(id) && id in catalog.suites && id !in visiting
      requires catalog.suites[id] == Entries(items)
      modifies this
      ensures r.Ok? ==> Remembers() && visiting == old(visiting) && old(resolved).Keys <= resolved.Keys
      ensures r.Ok? ==> id in resolved && resolved[id] == r.value
      ensures r.Err? ==> Explains(catalog, r.error)
      decreases Left(), 0
    {
      FewerLeft(catalog.suites.Keys, visiting, id);
      visiting := visiting + [id];
      var caseIds: seq<string> := [];
      ghost var depth: nat := 0;
      var n: nat := 0;
      while n < |items|
        invariant n <= |items| && Remembers() && visiting == old(visiting) + [id]
        invariant old(resolved).Keys <= resolved.Keys
        invariant FlatItems(catalog, items, n, depth) == Some(caseIds)
      {
        var inner := ResolveEntry(id, items[n]);
        if inner.Err? {
          return inner;
        }
        depth := Deepened(catalog, items, n, depth, inner.value);
        caseIds := caseIds + inner.value;
        n := n + 1;
      }
      visiting := visiting[..|visiting| - 1];
      assert Flat(catalog, id, depth + 1) == Some(caseIds);
      resolved := resolved[id := caseIds];
      r := Ok(caseIds);
    }

    /** One entry of the suite last entered: the cases it stands for. */
    method ResolveEntry(id: string, entry: string) returns (r: Outcome<seq<string>>)
      requires Remembers() && |visiting| > 0 && visiting[|visiting| - 1] == id && OnPathNow()
      requires id in catalog.suites && catalog.suites[id].Entries? && entry in catalog.suites[id].items
      modifies this
      ensures r.Ok? ==> Remembers() && visiting == old(visiting) && old(resolved).Keys <= resolved.Keys
      ensures r.Ok? ==> EntryFlattensTo(catalog, entry, r.value) && (!IsReference(entry) ==> r.value == [entry])
      ensures r.Err? ==> Explains(catalog, r.error)
      decreases Left(), 2
    {
      if IsReference(entry) {
        var child := entry[1..];
        assert entry == "@" + child && Refers(catalog, id, child);
        if child !in catalog.suites {
          return Err(NoSuchSuite(id, child));
        }
        PathGrows(catalog, visiting, child);
        r := ResolveSuite(child);
        if r.Ok? {
          ReferenceStandsFor(catalog, entry, r.value);
        }
      } else if entry !in catalog.cases {
        r := Err(NoSuchCase(id, entry));
      } else {
        r := Ok([entry]);
        assert FlatEntry(catalog, entry, 0) == Some([entry]);
      }
    }

    /** `_resolve_suites`, over the suites in any order. */
    method ResolveAll(order: seq<string>) returns (r: Outcome<map<string, seq<string>>>)
      requires resolved == map[] && visiting == [] && Elements(order) == catalog.suites.Keys
      modifies this
      ensures r.Ok? <==> WellFormed(catalog) && Acyclic(catalog)
      ensures r.Ok? ==> r.value.Keys == catalog.suites.Keys
      ensures r.Ok? ==> forall s :: s in r.value ==> StandsFor(catalog, s, r.value[s])
      ensures r.Err? ==> Explains(catalog, r.error)
    {
      for n := 0 to |order|
        invariant Remembers() && visiting == [] && Elements(order[..n]) <= resolved.Keys <= catalog.suites.Keys
      {
        var one := ResolveSuite(order[n]);
        if one.Err? {
          ErrorIsReal(catalog, one.error);
          return Err(one.error);
        }
      }
      r := Ok(resolved);
      FlatteningNeeds(catalog, resolved);
      forall s | s in resolved ensures StandsFor(catalog, s, resolved[s]) {
        FlattensIff(catalog, s, resolved[s]);
      }
    }
  }
}
