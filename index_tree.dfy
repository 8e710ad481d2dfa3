/**
 * The hierarchical test index shared by `TestIndex` (html_test_report/runner.py)
 * and `TestIndexNode` / `TestIndexRoot` (html_test_report/report.py).
 *
 * In the source every node is a dict from a name segment to its child node,
 * carrying `_name`, `_status` and `_url`. No node is ever shared between two
 * parents, so the whole tree is represented here by one map from the path of
 * a node (the segments of its dotted name; the root is `[]`) to its three
 * attributes. `_status` doubles as the memo of `get_status`.
 */
module IndexTree {
  import opened Wrappers
  import opened Strings

  type Path = seq<string>

  /** `_name`, `_status` and `_url` of one node. */
  datatype Entry = Entry(name: Option<string>, status: Option<string>, url: Option<string>)

  type Tree = map<Path, Entry>

  /** The statuses `get_status` counts, most severe first. */
  const Priority: seq<string> := ["error", "fail", "skip", "success"]

  predicate IsChild(p: Path, c: Path) {
    |c| == |p| + 1 && c[..|p|] == p
  }

  predicate IsPrefix(p: Path, k: Path) {
    |p| <= |k| && k[..|p|] == p
  }

  /** No path is longer than `h`; `h` bounds every recursion over the tree. */
  ghost predicate Bounded(t: Tree, h: nat) {
    forall k :: k in t ==> |k| <= h
  }

  /** The shape every index has: a nameless root, every other node under
      its parent and named after its last segment. */
  ghost predicate WellFormed(t: Tree) {
    && [] in t
    && t[[]].name == None
    && (forall k :: k in t && k != [] ==> k[..|k| - 1] in t && t[k].name == Some(k[|k| - 1]))
  }

  /** A fresh `TestIndex()` / `TestIndexNode()`: a lone nameless root. */
  const EmptyIndex: Tree := map[[] := Entry(None, None, None)]

  lemma EmptyIndexValid()
    ensures WellFormed(EmptyIndex) && Bounded(EmptyIndex, 0)
  {
  }

  lemma BoundedMono(t: Tree, h: nat, h': nat)
    requires Bounded(t, h) && h <= h'
    ensures Bounded(t, h')
  {
  }

  // ---- get_status ----

  type StatusResult = Result<Option<string>>

  /** A child status that `status_count[...] += 1` accepts. */
  predicate KnownOk(r: StatusResult) {
    r.Ok? && r.value.Some? && r.value.value in Priority
  }

  /** The first status of `Priority[i..]` present among the results. */
  function FirstPresent(rs: set<StatusResult>, i: nat): Option<string>
    requires i <= |Priority|
    decreases |Priority| - i
  {
    if i == |Priority| then None
    else if Ok(Some(Priority[i])) in rs then Some(Priority[i])
    else FirstPresent(rs, i + 1)
  }

  /** The status of a node without a status of its own, from its children's:
      `KeyError` as soon as one of them is not one of the four known
      statuses (or raised itself), else the most severe one present. */
  function Aggregate(rs: set<StatusResult>): StatusResult {
    if exists r :: r in rs && !KnownOk(r) then Err(KeyError) else Ok(FirstPresent(rs, 0))
  }

  /** What `get_status` returns on node `p`: its `_status` when set (a test
      status or an earlier memo, which is never invalidated), otherwise the
      aggregate of its children. */
  ghost function Eval(t: Tree, h: nat, p: Path): StatusResult
    requires Bounded(t, h) && p in t
    decreases h - |p|, 1
  {
    if t[p].status.Some? then Ok(t[p].status) else Aggregate(ChildResults(t, h, p))
  }

  /** What `get_status` returns on each child of `p`. */
  ghost function ChildResults(t: Tree, h: nat, p: Path): set<StatusResult>
    requires Bounded(t, h) && p in t
    decreases h - |p|, 0
  {
    set c | c in t && IsChild(p, c) :: Eval(t, h, c)
  }

  /** `t'` differs from `t` only by memos that `get_status` may write: a
      status appears only where there was none and only as the value `Eval`
      gives there. */
  ghost predicate Coherent(t: Tree, t': Tree, h: nat)
    requires Bounded(t, h)
  {
    && t'.Keys == t.Keys
    && Bounded(t', h)
    && forall k :: k in t ==>
         && t'[k].name == t[k].name
         && t'[k].url == t[k].url
         && (t'[k].status == t[k].status || (t[k].status.None? && Eval(t, h, k) == Ok(t'[k].status)))
  }

  /** Writing memos never changes the shape of an index. */
  lemma CoherentShape(t: Tree, t': Tree, h: nat)
    requires Bounded(t, h) && WellFormed(t) && Coherent(t, t', h)
    ensures WellFormed(t')
  {
  }

  /** Writing memos coherently never changes what `get_status` returns. */
  lemma {:induction false} CoherentEval(t: Tree, t': Tree, h: nat, q: Path)
    requires Bounded(t, h) && Coherent(t, t', h) && q in t
    ensures Eval(t', h, q) == Eval(t, h, q)
    decreases h - |q|
  {
    if t[q].status.None? && t'[q].status.None? {
      forall c | c in t && IsChild(q, c) ensures Eval(t', h, c) == Eval(t, h, c) {
        CoherentEval(t, t', h, c);
      }
      assert ChildResults(t', h, q) == ChildResults(t, h, q);
    }
  }

  lemma CoherentTransitive(t1: Tree, t2: Tree, t3: Tree, h: nat)
    requires Bounded(t1, h) && Coherent(t1, t2, h) && Coherent(t2, t3, h)
    ensures Coherent(t1, t3, h)
  {
    forall k | k in t1
      ensures t3[k].status == t1[k].status || (t1[k].status.None? && Eval(t1, h, k) == Ok(t3[k].status))
    {
      CoherentEval(t1, t2, h, k);
    }
  }

  /** Stepping the `for name in (...)` loop: a status that is absent is skipped. */
  lemma FirstPresentSkip(rs: set<StatusResult>, i: nat)
    requires i < |Priority| && Ok(Some(Priority[i])) !in rs
    ensures FirstPresent(rs, i) == FirstPresent(rs, i + 1)
  {
  }

  /** `get_status` of node `p` on the tree `t`: returns the status and the
      tree with the memos it wrote. */
  method ComputeStatus(t: Tree, ghost h: nat, p: Path) returns (r: StatusResult, t': Tree)
    requires Bounded(t, h) && p in t
    ensures r == Eval(t, h, p)
    ensures Coherent(t, t', h)
    ensures r.Ok? && r.value.Some? ==> t'[p].status == r.value
    decreases h - |p|, 1
  {
    if t[p].status.Some? {
      return Ok(t[p].status), t;
    }
    var ok, count;
    ok, count, t' := CountChildren(t, h, p);
    if !ok {
      return Err(KeyError), t';
    }
    ghost var rs := ChildResults(t, h, p);
    for i := 0 to |Priority|
      invariant FirstPresent(rs, 0) == FirstPresent(rs, i)
    {
      if count[Priority[i]] > 0 {
        ghost var before := t';
        CoherentEval(t, before, h, p);
        t' := t'[p := t'[p].(status := Some(Priority[i]))];
        assert Coherent(before, t', h);
        CoherentTransitive(t, before, t', h);
        return Ok(Some(Priority[i])), t';
      }
      FirstPresentSkip(rs, i);
    }
    return Ok(None), t';
  }

  /** `status_count` tells which of the four statuses occur in `seen`. */
  predicate CountsMatch(count: map<string, nat>, seen: set<StatusResult>) {
    && count.Keys == {"success", "fail", "error", "skip"}
    && forall s :: s in count ==> (count[s] > 0 <==> Ok(Some(s)) in seen)
  }

  lemma CountsStep(count: map<string, nat>, seen: set<StatusResult>, v: string)
    requires CountsMatch(count, seen) && v in count
    ensures CountsMatch(count[v := count[v] + 1], seen + {Ok(Some(v))})
  {
  }

  /** Removing a member makes a set smaller. */
  lemma Shrinks<T>(s: set<T>, x: T)
    requires x in s
    ensures |s - {x}| < |s|
  {
  }

  /** The state of the `for child in self.values()` loop of `get_status` on
      `p`: the children still to visit are `todo`, the statuses of the others
      are `seen`, all of them counted and none of them raised. */
  ghost predicate Scanning(t: Tree, t': Tree, h: nat, p: Path, todo: set<Path>, seen: set<StatusResult>, count: map<string, nat>)
    requires Bounded(t, h) && p in t
  {
    && (forall c :: c in todo ==> c in t && IsChild(p, c))
    && Coherent(t, t', h)
    && seen <= ChildResults(t, h, p)
    && (forall c :: c in t && IsChild(p, c) && c !in todo ==> Eval(t, h, c) in seen)
    && (forall r :: r in seen ==> KnownOk(r))
    && CountsMatch(count, seen)
  }

  /** Visiting child `c` (a recursive `get_status` that turned `before` into
      `after` and returned `cr`) either raises or advances the loop. */
  lemma ScanStep(t: Tree, before: Tree, after: Tree, h: nat, p: Path, todo: set<Path>,
                 seen: set<StatusResult>, count: map<string, nat>, c: Path, cr: StatusResult)
    requires Bounded(t, h) && p in t && c in todo
    requires Scanning(t, before, h, p, todo, seen, count)
    requires Coherent(before, after, h) && cr == Eval(before, h, c)
    ensures Coherent(t, after, h)
    ensures !KnownOk(cr) ==> exists r :: r in ChildResults(t, h, p) && !KnownOk(r)
    ensures KnownOk(cr) ==>
      && cr.value.value in count
      && Scanning(t, after, h, p, todo - {c}, seen + {cr}, count[cr.value.value := count[cr.value.value] + 1])
  {
    CoherentEval(t, before, h, c);
    CoherentTransitive(t, before, after, h);
    assert Eval(t, h, c) in ChildResults(t, h, p);
    if KnownOk(cr) {
      CountsStep(count, seen, cr.value.value);
    }
  }

  /** The `for child in self.values()` loop of `get_status`: `ok` is false
      when a child's status raised or is not one of the four counted ones;
      otherwise `count` tells which statuses occur among the children. */
  method CountChildren(t: Tree, ghost h: nat, p: Path) returns (ok: bool, count: map<string, nat>, t': Tree)
    requires Bounded(t, h) && p in t && t[p].status.None?
    ensures ok <==> forall r :: r in ChildResults(t, h, p) ==> KnownOk(r)
    ensures ok ==> forall s :: s in Priority ==> s in count && (count[s] > 0 <==> Ok(Some(s)) in ChildResults(t, h, p))
    ensures Coherent(t, t', h)
    decreases h - |p|, 0
  {
    ghost var seen: set<StatusResult> := {};
    count := map["success" := 0, "fail" := 0, "error" := 0, "skip" := 0];
    var todo := set c | c in t && IsChild(p, c);
    t' := t;
    while todo != {}
      invariant Scanning(t, t', h, p, todo, seen, count)
      decreases |todo|
    {
      var c :| c in todo;
      ghost var before := t';
      var cr;
      cr, t' := ComputeStatus(t', h, c);
      ScanStep(t, before, t', h, p, todo, seen, count, c, cr);
      if !KnownOk(cr) {
        return false, count, t';
      }
      count := count[cr.value.value := count[cr.value.value] + 1];
      seen := seen + {cr};
      Shrinks(todo, c);
      todo := todo - {c};
    }
    assert seen == ChildResults(t, h, p);
    ok := true;
  }

  /** The aggregation rule of `get_status` for a node without a status of its
      own, stated on its children: `KeyError` exactly when some child's
      status is not one of the four; otherwise "error" if some child is in
      error, else "fail" if some child failed, else "skip", else "success",
      and `None` for a node without children. */
  lemma {:induction false} EvalPriority(t: Tree, h: nat, p: Path, i: nat)
    requires Bounded(t, h) && p in t && t[p].status.None? && i < |Priority|
    ensures Eval(t, h, p).Err? <==>
      exists c :: c in t && IsChild(p, c) && !KnownOk(Eval(t, h, c))
    ensures Eval(t, h, p) == Ok(Some(Priority[i])) <==>
      && (forall c :: c in t && IsChild(p, c) ==> KnownOk(Eval(t, h, c)))
      && (exists c :: c in t && IsChild(p, c) && Eval(t, h, c) == Ok(Some(Priority[i])))
      && (forall c, j :: c in t && IsChild(p, c) && 0 <= j < i ==> Eval(t, h, c) != Ok(Some(Priority[j])))
    ensures Eval(t, h, p) == Ok(None) <==> forall c :: c in t ==> !IsChild(p, c)
  {
    var rs := ChildResults(t, h, p);
    assert forall x :: x in rs <==> exists c :: c in t && IsChild(p, c) && Eval(t, h, c) == x;
    FirstPresentRank(rs, 0, i);
    FirstPresentNone(rs, 0);
  }

  /** `FirstPresent(rs, from)` is `Priority[i]` exactly when that status is
      present and none of `Priority[from..i]` is. */
  lemma {:induction false} FirstPresentRank(rs: set<StatusResult>, from: nat, i: nat)
    requires from <= i < |Priority|
    ensures FirstPresent(rs, from) == Some(Priority[i]) <==>
      Ok(Some(Priority[i])) in rs && forall j :: from <= j < i ==> Ok(Some(Priority[j])) !in rs
    decreases i - from
  {
    if from < i {
      FirstPresentRank(rs, from + 1, i);
      assert Priority[from] != Priority[i];
    }
  }

  lemma {:induction false} FirstPresentNone(rs: set<StatusResult>, from: nat)
    requires from <= |Priority|
    ensures FirstPresent(rs, from) == None <==> forall j :: from <= j < |Priority| ==> Ok(Some(Priority[j])) !in rs
    decreases |Priority| - from
  {
    if from < |Priority| {
      FirstPresentNone(rs, from + 1);
    }
  }

  // ---- as_json ----

  /** The dict `as_json` returns: `title`, `url`, `status`, `childs`. */
  datatype Json = Json(title: Option<string>, url: Option<string>, status: Option<string>, childs: seq<Json>)

  /** The `url` field: `_url` itself (runner.py) or `str(_url)` (report.py),
      which turns a missing url into the text "None". */
  function UrlField(url: Option<string>, stringify: bool): (r: Option<string>)
    ensures stringify ==> r.Some? && (url.None? ==> r.value == "None")
    ensures stringify && url.Some? ==> r == url
    ensures !stringify ==> r == url
  {
    if !stringify then url
    else match url
      case None => Some("None")
      case Some(u) => Some(u)
  }

  /** The keys of node `p` (the segment names of its children). */
  function ChildKeys(t: Tree, p: Path): set<string> {
    set c | c in t && IsChild(p, c) :: c[|p|]
  }

  lemma ChildKeyIn(t: Tree, p: Path, k: string)
    ensures k in ChildKeys(t, p) <==> p + [k] in t
  {
    if k in ChildKeys(t, p) {
      var c :| c in t && IsChild(p, c) && c[|p|] == k;
      assert c == c[..|p|] + [c[|p|]];
    }
    if p + [k] in t {
      assert IsChild(p, p + [k]) && (p + [k])[|p|] == k;
    }
  }

  /** What `as_json` returns on node `p`, or `KeyError` if `get_status`
      raises anywhere below it. */
  ghost function JsonOf(t: Tree, h: nat, p: Path, stringify: bool): Result<Json>
    requires Bounded(t, h) && p in t
    decreases h - |p|, |ChildKeys(t, p)| + 1
  {
    var s := Eval(t, h, p);
    if s.Err? then Err(KeyError)
    else
      match ChildJsons(t, h, p, ChildKeys(t, p), stringify)
      case Err(_) => Err(KeyError)
      case Ok(cs) => Ok(Json(t[p].name, UrlField(t[p].url, stringify), s.value, cs))
  }

  /** The `url` of a node's dict. With `str` (report.py), the root and every
      node created on the way down, which have no url, give "None", and a
      leaf gives its page; without it (runner.py), `_url` as it is. */
  lemma JsonUrl(t: Tree, h: nat, p: Path, stringify: bool)
    requires Bounded(t, h) && p in t && JsonOf(t, h, p, stringify).Ok?
    ensures stringify && t[p].url.None? ==> JsonOf(t, h, p, stringify).value.url == Some("None")
    ensures stringify && t[p].url.Some? ==> JsonOf(t, h, p, stringify).value.url == t[p].url
    ensures !stringify ==> JsonOf(t, h, p, stringify).value.url == t[p].url
    ensures JsonOf(t, h, p, stringify).value.title == t[p].name
  {
  }

  /** The `as_json` of the children of `p` named in `rem`, in `sorted` order. */
  ghost function ChildJsons(t: Tree, h: nat, p: Path, rem: set<string>, stringify: bool): Result<seq<Json>>
    requires Bounded(t, h) && p in t && rem <= ChildKeys(t, p)
    decreases h - |p|, |rem|
  {
    if rem == {} then Ok([])
    else
      var m := Least(rem);
      ChildKeyIn(t, p, m);
      match JsonOf(t, h, p + [m], stringify)
      case Err(_) => Err(KeyError)
      case Ok(j) =>
        match ChildJsons(t, h, p, rem - {m}, stringify)
        case Err(_) => Err(KeyError)
        case Ok(js) => Ok([j] + js)
  }

  lemma {:induction false} JsonStable(t: Tree, t': Tree, h: nat, q: Path, stringify: bool)
    requires Bounded(t, h) && Coherent(t, t', h) && q in t
    ensures JsonOf(t', h, q, stringify) == JsonOf(t, h, q, stringify)
    decreases h - |q|, |ChildKeys(t, q)| + 1
  {
    CoherentEval(t, t', h, q);
    assert ChildKeys(t', q) == ChildKeys(t, q);
    ChildJsonsStable(t, t', h, q, ChildKeys(t, q), stringify);
  }

  lemma {:induction false} ChildJsonsStable(t: Tree, t': Tree, h: nat, q: Path, rem: set<string>, stringify: bool)
    requires Bounded(t, h) && Coherent(t, t', h) && q in t && rem <= ChildKeys(t, q)
    ensures ChildKeys(t', q) == ChildKeys(t, q)
    ensures ChildJsons(t', h, q, rem, stringify) == ChildJsons(t, h, q, rem, stringify)
    decreases h - |q|, |rem|
  {
    assert ChildKeys(t', q) == ChildKeys(t, q);
    if rem != {} {
      var m := Least(rem);
      ChildKeyIn(t, q, m);
      JsonStable(t, t', h, q + [m], stringify);
      ChildJsonsStable(t, t', h, q, rem - {m}, stringify);
    }
  }

  function Prepend(xs: seq<Json>, r: Result<seq<Json>>): Result<seq<Json>> {
    match r
    case Ok(ys) => Ok(xs + ys)
    case Err(_) => Err(KeyError)
  }

  lemma PrependNothing(r: Result<seq<Json>>)
    requires r.Ok? || r == Err(KeyError)
    ensures Prepend([], r) == r
  {
    if r.Ok? { assert [] + r.value == r.value; }
  }

  lemma PrependTwice(xs: seq<Json>, ys: seq<Json>, r: Result<seq<Json>>)
    ensures Prepend(xs, Prepend(ys, r)) == Prepend(xs + ys, r)
  {
    if r.Ok? { assert xs + (ys + r.value) == (xs + ys) + r.value; }
  }

  /** One step of `ChildJsons`: the least remaining key comes first. */
  lemma ChildJsonsStep(t: Tree, h: nat, p: Path, rem: set<string>, stringify: bool)
    requires Bounded(t, h) && p in t && rem <= ChildKeys(t, p) && rem != {}
    ensures p + [Least(rem)] in t
    ensures ChildJsons(t, h, p, rem, stringify).Ok? <==>
      JsonOf(t, h, p + [Least(rem)], stringify).Ok? && ChildJsons(t, h, p, rem - {Least(rem)}, stringify).Ok?
    ensures ChildJsons(t, h, p, rem, stringify).Ok? ==>
      ChildJsons(t, h, p, rem, stringify).value ==
        [JsonOf(t, h, p + [Least(rem)], stringify).value] + ChildJsons(t, h, p, rem - {Least(rem)}, stringify).value
  {
    ChildKeyIn(t, p, Least(rem));
  }

  /** The error `ChildJsons` returns is always `KeyError`. */
  lemma ChildJsonsError(t: Tree, h: nat, p: Path, rem: set<string>, stringify: bool)
    requires Bounded(t, h) && p in t && rem <= ChildKeys(t, p)
    ensures ChildJsons(t, h, p, rem, stringify).Ok? || ChildJsons(t, h, p, rem, stringify) == Err(KeyError)
  {
  }

  /** `as_json` of node `p`, children in ascending key order; returns the
      tree with the memos `get_status` wrote on the way. */
  method BuildJson(t: Tree, ghost h: nat, p: Path, stringify: bool) returns (r: Result<Json>, t': Tree)
    requires Bounded(t, h) && p in t
    ensures r == JsonOf(t, h, p, stringify)
    ensures Coherent(t, t', h)
    decreases h - |p|
  {
    var s;
    s, t' := ComputeStatus(t, h, p);
    if s.Err? {
      return Err(KeyError), t';
    }
    var todo := ChildKeys(t, p);
    var childs := [];
    ChildJsonsError(t, h, p, todo, stringify);
    PrependNothing(ChildJsons(t, h, p, todo, stringify));
    while todo != {}
      invariant todo <= ChildKeys(t, p)
      invariant Coherent(t, t', h)
      invariant ChildJsons(t, h, p, ChildKeys(t, p), stringify) == Prepend(childs, ChildJsons(t, h, p, todo, stringify))
      decreases |todo|
    {
      LeastExists(todo);
      var k :| k in todo && forall y :: y in todo ==> !StrLess(y, k);
      LeastUnique(k, Least(todo), todo);
      ChildKeyIn(t, p, k);
      ghost var before := t';
      var cj;
      cj, t' := BuildJson(t', h, p + [k], stringify);
      JsonStable(t, before, h, p + [k], stringify);
      CoherentTransitive(t, before, t', h);
      ChildJsonsStep(t, h, p, todo, stringify);
      if cj.Err? {
        assert ChildJsons(t, h, p, ChildKeys(t, p), stringify).Err?;
        return Err(KeyError), t';
      }
      ChildJsonsError(t, h, p, todo - {k}, stringify);
      assert ChildJsons(t, h, p, todo, stringify) == Prepend([cj.value], ChildJsons(t, h, p, todo - {k}, stringify));
      PrependTwice(childs, [cj.value], ChildJsons(t, h, p, todo - {k}, stringify));
      childs := childs + [cj.value];
      Shrinks(todo, k);
      todo := todo - {k};
    }
    assert ChildJsons(t, h, p, ChildKeys(t, p), stringify) == Ok(childs) by {
      assert childs + [] == childs;
    }
    r := Ok(Json(t[p].name, UrlField(t[p].url, stringify), s.value, childs));
  }

  /** A node's `as_json` is titled by the node's own key. */
  lemma JsonTitle(t: Tree, h: nat, q: Path, stringify: bool)
    requires Bounded(t, h) && WellFormed(t) && q in t && q != []
    requires JsonOf(t, h, q, stringify).Ok?
    ensures JsonOf(t, h, q, stringify).value.title == Some(q[|q| - 1])
  {
  }

  lemma {:induction false} ChildJsonsSorted(t: Tree, h: nat, p: Path, rem: set<string>, stringify: bool)
    requires Bounded(t, h) && WellFormed(t) && p in t && rem <= ChildKeys(t, p)
    requires ChildJsons(t, h, p, rem, stringify).Ok?
    ensures var cs := ChildJsons(t, h, p, rem, stringify).value;
      && |cs| == |rem|
      && (forall i :: 0 <= i < |cs| ==> cs[i].title.Some? && cs[i].title.value in rem)
      && (forall i, j :: 0 <= i < j < |cs| ==> StrLess(cs[i].title.value, cs[j].title.value))
    decreases |rem|
  {
    if rem != {} {
      var m := Least(rem);
      ChildJsonsStep(t, h, p, rem, stringify);
      ChildJsonsSorted(t, h, p, rem - {m}, stringify);
      var j := JsonOf(t, h, p + [m], stringify).value;
      var js := ChildJsons(t, h, p, rem - {m}, stringify).value;
      JsonTitle(t, h, p + [m], stringify);
      assert j.title == Some(m);
      forall k | 0 <= k < |js| ensures StrLess(m, js[k].title.value) {
        var y := js[k].title.value;
        assert y in rem && y != m;
        StrLessTotal(m, y);
      }
      SortedCons(j, js, rem);
    }
  }

  lemma SortedCons(j: Json, js: seq<Json>, rem: set<string>)
    requires j.title.Some? && j.title.value in rem && |js| == |rem| - 1
    requires forall i :: 0 <= i < |js| ==> js[i].title.Some? && js[i].title.value in rem
    requires forall k :: 0 <= k < |js| ==> StrLess(j.title.value, js[k].title.value)
    requires forall i, k :: 0 <= i < k < |js| ==> StrLess(js[i].title.value, js[k].title.value)
    ensures var cs := [j] + js;
      && |cs| == |rem|
      && (forall i :: 0 <= i < |cs| ==> cs[i].title.Some? && cs[i].title.value in rem)
      && (forall i, k :: 0 <= i < k < |cs| ==> StrLess(cs[i].title.value, cs[k].title.value))
  {
    var cs := [j] + js;
    forall i, k | 0 <= i < k < |cs| ensures StrLess(cs[i].title.value, cs[k].title.value) {
      if i > 0 { assert cs[i] == js[i - 1] && cs[k] == js[k - 1]; }
      else { assert cs[k] == js[k - 1]; }
    }
  }

  /** The children listed by `as_json` are exactly the node's children, one
      entry each, titled by their keys in strictly ascending order,
      whatever order they were inserted in. */
  lemma JsonSorted(t: Tree, h: nat, p: Path, stringify: bool)
    requires Bounded(t, h) && WellFormed(t) && p in t
    requires JsonOf(t, h, p, stringify).Ok?
    ensures var j := JsonOf(t, h, p, stringify).value;
      && |j.childs| == |ChildKeys(t, p)|
      && (forall i :: 0 <= i < |j.childs| ==> j.childs[i].title.Some? && j.childs[i].title.value in ChildKeys(t, p))
      && (forall i, k :: 0 <= i < k < |j.childs| ==> StrLess(j.childs[i].title.value, j.childs[k].title.value))
  {
    ChildJsonsSorted(t, h, p, ChildKeys(t, p), stringify);
  }

  // ---- append ----

  /** A fresh intermediate node (`TestIndex(root)` / `TestIndexNode(tok)`). */
  function Intermediate(tok: string): Entry { Entry(Some(tok), None, None) }

  /** The fresh leaf that records one test. */
  function Leaf(name: string, status: string, url: string): Entry { Entry(Some(name), Some(status), Some(url)) }

  /** Create node `q` if it is missing (`if tok not in node`). */
  function Ensure(t: Tree, q: Path): Tree
    requires |q| >= 1
  {
    if q in t then t else t[q := Intermediate(q[|q| - 1])]
  }

  /** Create, in order, the missing nodes among the prefixes of `path` of
      length `i + 1` to `|path| - 1`. */
  function AddParents(t: Tree, path: Path, i: nat): Tree
    requires i <= |path|
    decreases |path| - i
  {
    if i + 1 >= |path| then t else AddParents(Ensure(t, path[..i + 1]), path, i + 1)
  }

  /** Rebinding `node[name]` drops the whole former subtree at `q`. */
  function DropSubtree(t: Tree, q: Path): Tree {
    map k | k in t && !IsPrefix(q, k) :: t[k]
  }

  /** The index after appending a test at `path`, the parents up to length
      `i` being already in place. */
  function InsertFrom(t: Tree, path: Path, i: nat, status: string, url: string): Tree
    requires 1 <= |path| && i <= |path|
  {
    DropSubtree(AddParents(t, path, i), path)[path := Leaf(path[|path| - 1], status, url)]
  }

  function Insert(t: Tree, path: Path, status: string, url: string): Tree
    requires 1 <= |path|
  {
    InsertFrom(t, path, 0, status, url)
  }

  /** The last step of `append`: the leaf replaces whatever was at `path`. */
  lemma InsertFromLeaf(t: Tree, path: Path, i: nat, status: string, url: string)
    requires i + 1 == |path|
    ensures InsertFrom(t, path, i, status, url) == DropSubtree(t, path)[path := Leaf(path[i], status, url)]
  {
  }

  /** One step of `append` descends one segment, creating its node if missing. */
  lemma InsertFromStep(t: Tree, path: Path, i: nat, status: string, url: string)
    requires i + 1 < |path|
    ensures InsertFrom(t, path, i, status, url) == InsertFrom(Ensure(t, path[..i + 1]), path, i + 1, status, url)
  {
  }

  /** What adding the parents does: every prefix of `path` longer than `i` and
      shorter than `path` exists afterwards; existing nodes are kept as they
      were, missing ones are created without status or url, nothing else is
      added. */
  lemma {:induction false} AddParentsEffect(t: Tree, path: Path, i: nat)
    requires i <= |path|
    ensures forall k :: k in t ==> k in AddParents(t, path, i) && AddParents(t, path, i)[k] == t[k]
    ensures forall j :: i < j < |path| ==> path[..j] in AddParents(t, path, i)
    ensures forall j :: i < j < |path| && path[..j] !in t ==> AddParents(t, path, i)[path[..j]] == Intermediate(path[j - 1])
    ensures forall k :: k in AddParents(t, path, i) ==> k in t || exists j :: i < j < |path| && k == path[..j]
    decreases |path| - i
  {
    if i + 1 < |path| {
      var t1 := Ensure(t, path[..i + 1]);
      AddParentsEffect(t1, path, i + 1);
      assert path[..i + 1][i] == path[i];
    }
  }

  /** Appending keeps the shape of an index and its depth bound. */
  lemma InsertValid(t: Tree, h: nat, path: Path, status: string, url: string)
    requires WellFormed(t) && Bounded(t, h) && 1 <= |path| <= h
    ensures WellFormed(Insert(t, path, status, url))
    ensures Bounded(Insert(t, path, status, url), h)
  {
    var a := AddParents(t, path, 0);
    AddParentsShape(t, path, 0);
    var d := DropSubtree(a, path);
    DropShape(a, path);
    var parent := path[..|path| - 1];
    assert parent in d by {
      assert !IsPrefix(path, parent);
    }
    InsertEffect(t, path, status, url);
  }

  /** Creating a node under an existing parent keeps the shape. */
  lemma EnsureShape(t: Tree, q: Path)
    requires WellFormed(t) && |q| >= 1 && q[..|q| - 1] in t
    ensures WellFormed(Ensure(t, q)) && q in Ensure(t, q)
  {
    if q !in t {
      var e := Ensure(t, q);
      assert e == t[q := Intermediate(q[|q| - 1])];
      forall k | k in e && k != [] ensures k[..|k| - 1] in e && e[k].name == Some(k[|k| - 1]) {
        if k != q {
          assert k in t;
        }
      }
    }
  }

  lemma {:induction false} AddParentsShape(t: Tree, path: Path, i: nat)
    requires WellFormed(t) && i < |path| && path[..i] in t
    ensures WellFormed(AddParents(t, path, i)) && path[..|path| - 1] in AddParents(t, path, i)
    decreases |path| - i
  {
    if i + 1 < |path| {
      assert path[..i + 1][..i] == path[..i];
      EnsureShape(t, path[..i + 1]);
      AddParentsShape(Ensure(t, path[..i + 1]), path, i + 1);
    }
  }

  /** Dropping the subtree at a non-root path keeps the shape: a node's
      parent is dropped only together with the node. */
  lemma DropShape(t: Tree, q: Path)
    requires WellFormed(t) && |q| >= 1
    ensures WellFormed(DropSubtree(t, q))
  {
    assert !IsPrefix(q, []);
  }

  /** The effect of appending a test at `path`: a leaf with the given status
      and url replaces whatever was at `path` (last write wins), the missing
      parents are created without status or url and existing ones are
      reused unchanged, the old subtree under `path` is gone, and every
      other node is left as it was. */
  lemma InsertEffect(t: Tree, path: Path, status: string, url: string)
    requires 1 <= |path|
    ensures var r := Insert(t, path, status, url);
      && r[path] == Leaf(path[|path| - 1], status, url)
      && (forall j :: 0 < j < |path| ==> path[..j] in r)
      && (forall j :: 0 < j < |path| && path[..j] in t ==> r[path[..j]] == t[path[..j]])
      && (forall j :: 0 < j < |path| && path[..j] !in t ==> r[path[..j]] == Intermediate(path[j - 1]))
      && (forall k :: k in t && !IsPrefix(path, k) ==> k in r && r[k] == t[k])
      && (forall k :: k in t && IsPrefix(path, k) && k != path ==> k !in r)
      && (forall k :: k in r ==> k in t || IsPrefix(k, path))
  {
    AddParentsEffect(t, path, 0);
    var r := Insert(t, path, status, url);
    forall j | 0 < j < |path|
      ensures !IsPrefix(path, path[..j])
    {
    }
    forall k | k in r
      ensures k in t || IsPrefix(k, path)
    {
      if k !in t && k != path {
        var j :| 0 < j < |path| && k == path[..j];
      }
    }
  }

  /** Appending sets the leaf at `path`. */
  lemma InsertSetsLeaf(t: Tree, path: Path, status: string, url: string)
    requires 1 <= |path|
    ensures path in Insert(t, path, status, url)
    ensures Insert(t, path, status, url)[path] == Leaf(path[|path| - 1], status, url)
  {
  }

  /** Appending keeps every node that is not at or below `path`. */
  lemma InsertKeeps(t: Tree, path: Path, status: string, url: string, k: Path)
    requires 1 <= |path| && k in t && !IsPrefix(path, k)
    ensures k in Insert(t, path, status, url) && Insert(t, path, status, url)[k] == t[k]
  {
    AddParentsEffect(t, path, 0);
  }

  /** One `append`: the path of the dotted name, the status and the url. */
  datatype Appending = Appending(path: Path, status: string, url: string)

  predicate Appendable(es: seq<Appending>) {
    forall i :: 0 <= i < |es| ==> |es[i].path| >= 1
  }

  /** `t` after appending each of `es` in turn. */
  function AppendAll(t: Tree, es: seq<Appending>): Tree
    requires Appendable(es)
    decreases |es|
  {
    if |es| == 0 then t
    else
      var last := es[|es| - 1];
      Insert(AppendAll(t, es[..|es| - 1]), last.path, last.status, last.url)
  }

  /** Appending one more: the `i`-th append on the index of the first `i`. */
  lemma AppendAllStep(t: Tree, es: seq<Appending>, i: nat)
    requires Appendable(es) && i < |es|
    ensures Appendable(es[..i]) && Appendable(es[..i + 1])
    ensures AppendAll(t, es[..i + 1]) == Insert(AppendAll(t, es[..i]), es[i].path, es[i].status, es[i].url)
  {
    assert es[..i + 1][..i] == es[..i];
  }

  /** An append survives the later ones, as a leaf with its own status and
      url, unless a later one is at the same path or above it: the last
      write wins. */
  lemma {:induction false} AppendAllLastWriteWins(t: Tree, es: seq<Appending>, i: nat)
    requires Appendable(es) && i < |es|
    requires forall j :: i < j < |es| ==> !IsPrefix(es[j].path, es[i].path)
    ensures es[i].path in AppendAll(t, es)
    ensures AppendAll(t, es)[es[i].path] == Leaf(es[i].path[|es[i].path| - 1], es[i].status, es[i].url)
    decreases |es|
  {
    var n := |es| - 1;
    var earlier := es[..n];
    if i == n {
      InsertSetsLeaf(AppendAll(t, earlier), es[i].path, es[i].status, es[i].url);
    } else {
      assert earlier[i] == es[i];
      AppendAllLastWriteWins(t, earlier, i);
      InsertKeeps(AppendAll(t, earlier), es[n].path, es[n].status, es[n].url, es[i].path);
    }
  }

  /** Appending keeps the shape of an index. */
  lemma {:induction false} AppendAllValid(t: Tree, es: seq<Appending>, h: nat)
    requires Appendable(es) && WellFormed(t) && Bounded(t, h)
    requires forall i :: 0 <= i < |es| ==> |es[i].path| <= h
    ensures WellFormed(AppendAll(t, es)) && Bounded(AppendAll(t, es), h)
    decreases |es|
  {
    if |es| > 0 {
      var n := |es| - 1;
      AppendAllValid(t, es[..n], h);
      InsertValid(AppendAll(t, es[..n]), h, es[n].path, es[n].status, es[n].url);
    }
  }

  /** `get_status` memos are never invalidated: appending below a node whose
      status is already set (by a test or by an earlier `get_status`) leaves
      that status as it was, whatever the new test's status. */
  lemma MemoSurvivesAppend(t: Tree, h: nat, p: Path, path: Path, status: string, url: string)
    requires Bounded(t, h) && p in t && t[p].status.Some? && 1 <= |path| <= h
    requires IsPrefix(p, path) && p != path
    ensures Bounded(Insert(t, path, status, url), h)
    ensures p in Insert(t, path, status, url)
    ensures Eval(Insert(t, path, status, url), h, p) == Eval(t, h, p)
  {
    InsertEffect(t, path, status, url);
    var r := Insert(t, path, status, url);
    assert !IsPrefix(path, p);
    forall k | k in r ensures |k| <= h {
      if k !in t { assert IsPrefix(k, path); }
    }
  }
}
