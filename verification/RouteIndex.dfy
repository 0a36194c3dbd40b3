/**
 The arena-backed segment trie that replaces a linear scan of the routes (routes/index.rs), and the
 scan itself (routes/mod.rs).
 */
module RouteIndex {
  import opened Prelude
  import opened Splitting

  /** A route: its path prefix, and whatever its method and host rules are. */
  datatype Route<R> = Route(prefix: string, rule: R)

  datatype Node = Node(children: map<string, nat>, routes: seq<nat>)

  /** The path of trie edges under which a prefix is filed.  The empty prefix is filed at the root. */
  function Key(prefix: string): seq<string> {
    if prefix == "" then [] else Split(prefix, '/')
  }

  /** The comparison the scan makes: the prefix's characters, and then nothing more or a slash. */
  predicate UnderPrefix(path: string, prefix: string) {
    prefix <= path && (|path| == |prefix| || path[|prefix|] == '/')
  }

  function TrimStart(path: string): string {
    if path != "" && path[0] == '/' then TrimStart(path[1..]) else path
  }

  function TrimEnd(path: string): string {
    if path != "" && path[|path| - 1] == '/' then TrimEnd(path[..|path| - 1]) else path
  }

  function Normalize(path: string): string {
    TrimEnd(TrimStart(path))
  }

  ghost predicate OnlySlashes(s: string) {
    forall i :: 0 <= i < |s| ==> s[i] == '/'
  }

  /** Normalizing takes away the slashes at either end and nothing else. */
  lemma NormalizeIs(path: string) returns (a: nat, b: nat)
    ensures a <= b <= |path| && Normalize(path) == path[a..b]
    ensures OnlySlashes(path[..a]) && OnlySlashes(path[b..])
    ensures a < b ==> path[a] != '/' && path[b - 1] != '/'
  {
    a := StartIs(path);
    var n := EndIs(path[a..]);
    b := a + n;
    assert path[a..][..n] == path[a..b] && path[a..][n..] == path[b..];
  }

  lemma {:induction false} StartIs(path: string) returns (a: nat)
    ensures a <= |path| && TrimStart(path) == path[a..] && OnlySlashes(path[..a]) && (a < |path| ==> path[a] != '/')
  {
    a := 0;
    if path != "" && path[0] == '/' {
      a := StartIs(path[1..]);
      assert path[1..][a..] == path[a + 1..] && path[..a + 1] == [path[0]] + path[1..][..a];
      a := a + 1;
    }
  }

  lemma {:induction false} EndIs(path: string) returns (n: nat)
    ensures n <= |path| && TrimEnd(path) == path[..n] && OnlySlashes(path[n..]) && (0 < n ==> path[n - 1] != '/')
  {
    n := |path|;
    if path != "" && path[|path| - 1] == '/' {
      n := EndIs(path[..|path| - 1]);
      assert path[..|path| - 1][..n] == path[..n] && path[n..] == path[..|path| - 1][n..] + [path[|path| - 1]];
    }
  }

  /** A prefix covers itself and what continues it after a slash, and so never half a segment. */
  lemma UnderPrefixIs(path: string, prefix: string)
    ensures UnderPrefix(path, prefix) <==> path == prefix || exists rest :: path == prefix + "/" + rest
  {
    if UnderPrefix(path, prefix) && path != prefix {
      assert path == prefix + "/" + path[|prefix| + 1..];
    }
    if rest :| path == prefix + "/" + rest {
      assert path[|prefix|] == (prefix + "/" + rest)[|prefix|] == '/';
      assert path[..|prefix|] == prefix;
    }
  }

  // ---------------------------------------------------------------- matching

  /** What the index finds a prefix for: the empty prefix only for the empty path. */
  predicate Indexed(path: string, prefix: string) {
    if prefix == "" then path == "" else Key(prefix) <= Split(path, '/')
  }

  /** The index and the scan judge every prefix alike, but for the empty prefix under a path that begins with a slash. */
  lemma IndexedIsUnderPrefix(path: string, prefix: string)
    ensures (Indexed(path, prefix) <==> UnderPrefix(path, prefix))
       <==> !(prefix == "" && path != "" && path[0] == '/')
  {
    PartsPrefix(prefix, path, '/');
  }

  /** `best` is the least element of `s`, if there is one. */
  ghost predicate IsLeast(best: Option<nat>, s: set<nat>) {
    match best
    case None => s == {}
    case Some(p) => p in s && forall q :: q in s ==> p <= q
  }

  /** The positions of the routes that match `path` by `under` and whose rule accepts the request. */
  ghost function Matches<R>(routes: seq<Route<R>>, path: string, under: (string, string) -> bool, ok: R -> bool): set<nat> {
    set p: nat | p < |routes| && under(path, routes[p].prefix) && ok(routes[p].rule)
  }

  // ---------------------------------------------------------------- the trie

  /** Label `j` is name `i` with one more segment. */
  ghost predicate IsChild(labels: seq<seq<string>>, i: nat, j: nat)
    requires i < |labels| && j < |labels|
  {
    |labels[j]| == |labels[i]| + 1 && labels[i] <= labels[j]
  }

  ghost predicate EdgesOk(nodes: seq<Node>, labels: seq<seq<string>>)
    requires |labels| == |nodes|
  {
    forall i, segment :: 0 <= i < |nodes| && segment in nodes[i].children ==>
      nodes[i].children[segment] < |nodes| && labels[nodes[i].children[segment]] == labels[i] + [segment]
  }

  ghost predicate EdgesComplete(nodes: seq<Node>, labels: seq<seq<string>>)
    requires |labels| == |nodes|
  {
    forall i, j :: 0 <= i < |nodes| && 0 <= j < |nodes| && IsChild(labels, i, j) ==>
      labels[j][|labels[i]|] in nodes[i].children
  }

  ghost predicate HasParent(labels: seq<seq<string>>, j: nat)
    requires j < |labels|
  {
    exists i :: 0 <= i < |labels| && IsChild(labels, i, j)
  }

  ghost predicate Rooted(labels: seq<seq<string>>) {
    && 0 < |labels| && labels[0] == []
    && forall j :: 0 < j < |labels| ==> HasParent(labels, j)
  }

  ghost predicate Distinct(labels: seq<seq<string>>) {
    forall i, j :: 0 <= i < j < |labels| ==> labels[i] != labels[j]
  }

  /** `labels` names each node by the edges that lead to it: every node once, every edge accounted for. */
  ghost predicate TrieOk(nodes: seq<Node>, labels: seq<seq<string>>) {
    && |labels| == |nodes|
    && Rooted(labels) && Distinct(labels) && EdgesOk(nodes, labels) && EdgesComplete(nodes, labels)
  }

  /** A new node under node `i`. */
  function Grow(nodes: seq<Node>, i: nat, segment: string): seq<Node>
    requires i < |nodes|
  {
    nodes[i := nodes[i].(children := nodes[i].children[segment := |nodes|])] + [Node(map[], [])]
  }

  lemma GrowKeepsTrie(nodes: seq<Node>, labels: seq<seq<string>>, i: nat, segment: string)
    requires TrieOk(nodes, labels) && i < |nodes| && segment !in nodes[i].children
    ensures TrieOk(Grow(nodes, i, segment), labels + [labels[i] + [segment]])
  {
    var name := labels[i] + [segment];
    var grown := labels + [name];
    forall j | 0 <= j < |labels|
      ensures labels[j] != name
    {
      if labels[j] == name {
        assert IsChild(labels, i, j);
      }
    }
    assert IsChild(grown, i, |labels|);
    assert HasParent(grown, |labels|);
    forall j | 0 < j < |labels|
      ensures HasParent(grown, j)
    {
      assert HasParent(labels, j);
      var k :| 0 <= k < |labels| && IsChild(labels, k, j);
      assert IsChild(grown, k, j);
    }
    GrowKeepsEdges(nodes, labels, i, segment);
  }

  lemma GrowKeepsEdges(nodes: seq<Node>, labels: seq<seq<string>>, i: nat, segment: string)
    requires TrieOk(nodes, labels) && i < |nodes| && segment !in nodes[i].children
    ensures EdgesOk(Grow(nodes, i, segment), labels + [labels[i] + [segment]])
    ensures EdgesComplete(Grow(nodes, i, segment), labels + [labels[i] + [segment]])
  {
    var name := labels[i] + [segment];
    var grown := labels + [name];
    var more := Grow(nodes, i, segment);
    forall j, k | 0 <= j < |more| && 0 <= k < |more| && IsChild(grown, j, k)
      ensures grown[k][|grown[j]|] in more[j].children
    {
      if k < |labels| {
        if j < |labels| {
          assert IsChild(labels, j, k);
        } else {
          NoDeeperLabel(nodes, labels, i, segment, k);
        }
      } else if j < |labels| {
        assert grown[k] == name && labels[j] == name[..|labels[i]|] == labels[i];
        assert j == i;
      }
    }
  }

  /** Nothing is filed beneath an edge that does not exist. */
  lemma NoDeeperLabel(nodes: seq<Node>, labels: seq<seq<string>>, i: nat, segment: string, k: nat)
    requires TrieOk(nodes, labels) && i < |nodes| && k < |nodes| && segment !in nodes[i].children
    requires |labels[k]| == |labels[i]| + 2
    ensures !(labels[i] + [segment] <= labels[k])
  {
    if labels[i] + [segment] <= labels[k] {
      assert HasParent(labels, k);
      var p :| 0 <= p < |labels| && IsChild(labels, p, k);
      assert labels[p] == labels[i] + [segment];
      assert IsChild(labels, i, p);
    }
  }

  /** `positions` lists, in order, exactly the first `n` routes whose key is `key`. */
  ghost predicate FiledUnder<R>(positions: seq<nat>, key: seq<string>, routes: seq<Route<R>>, n: nat)
    requires n <= |routes|
  {
    && InOrder(positions)
    && (forall p :: p in positions ==> p < n && Key(routes[p].prefix) == key)
    && (forall p :: 0 <= p < n && Key(routes[p].prefix) == key ==> p in positions)
  }

  /** The first `n` routes are filed, each at the node of its own key, in order. */
  ghost predicate Filed<R>(nodes: seq<Node>, labels: seq<seq<string>>, routes: seq<Route<R>>, n: nat)
    requires |labels| == |nodes| && n <= |routes|
  {
    && (forall i :: 0 <= i < |nodes| ==> FiledUnder(nodes[i].routes, labels[i], routes, n))
    && (forall p :: 0 <= p < n ==> Key(routes[p].prefix) in labels)
  }

  ghost predicate InOrder(positions: seq<nat>) {
    forall j, k :: 0 <= j < k < |positions| ==> positions[j] < positions[k]
  }

  class PrefixIndex {
    var nodes: seq<Node>

    ghost predicate Indexes<R>(routes: seq<Route<R>>)
      reads this
    {
      exists labels :: TrieOk(nodes, labels) && Filed(nodes, labels, routes, |routes|)
    }

    constructor ()
      ensures nodes == [Node(map[], [])]
    {
      nodes := [Node(map[], [])];
    }

    /** Walk down from the root along `segments`, growing the arena where an edge is missing. */
    method Reach(segments: seq<string>, ghost labels: seq<seq<string>>) returns (current: nat, ghost grown: seq<seq<string>>)
      requires TrieOk(nodes, labels)
      modifies this
      ensures TrieOk(nodes, grown) && labels <= grown
      ensures current < |nodes| && grown[current] == segments
      ensures forall i :: 0 <= i < |nodes| ==> nodes[i].routes == if i < |labels| then old(nodes)[i].routes else []
    {
      current, grown := 0, labels;
      for k := 0 to |segments|
        invariant TrieOk(nodes, grown) && labels <= grown
        invariant current < |nodes| && grown[current] == segments[..k]
        invariant forall i :: 0 <= i < |nodes| ==> nodes[i].routes == if i < |labels| then old(nodes)[i].routes else []
      {
        var segment := segments[k];
        assert segments[..k + 1] == segments[..k] + [segment];
        if segment in nodes[current].children {
          current := nodes[current].children[segment];
        } else {
          GrowKeepsTrie(nodes, grown, current, segment);
          grown := grown + [grown[current] + [segment]];
          var child := |nodes|;
          nodes := Grow(nodes, current, segment);
          current := child;
        }
      }
      assert segments[..|segments|] == segments;
    }

    /** Index a table.  Small tables keep the scan. */
    static method Build<R>(routes: seq<Route<R>>) returns (index: Option<PrefixIndex>)
      ensures index.None? <==> |routes| <= 32
      ensures index.Some? ==> fresh(index.value) && index.value.Indexes(routes)
    {
      hide Rooted, Distinct, EdgesOk, EdgesComplete, FiledUnder, Key;
      if |routes| <= 32 {
        return None;
      }
      var built := new PrefixIndex();
      ghost var labels := [[]];
      EmptyTrie(routes);
      for position := 0 to |routes|
        invariant fresh(built)
        invariant TrieOk(built.nodes, labels) && Filed(built.nodes, labels, routes, position)
      {
        ghost var before := built.nodes;
        var current, grown := built.Reach(Key(routes[position].prefix), labels);
        FileNext(before, built.nodes, labels, grown, routes, position, current);
        labels := grown;
        var node := built.nodes[current];
        built.nodes := built.nodes[current := node.(routes := node.routes + [position])];
      }
      assert built.Indexes(routes);
      index := Some(built);
    }

    /** Keep the earliest acceptable route filed at `node`, if it beats the best so far. */
    method Consider<R>(node: nat, routes: seq<Route<R>>, ok: R -> bool, best: Option<nat>, ghost seen: set<nat>) returns (next: Option<nat>)
      requires node < |nodes| && IsLeast(best, seen)
      requires InOrder(nodes[node].routes)
      ensures IsLeast(next, seen + set p | p in nodes[node].routes && p < |routes| && ok(routes[p].rule))
    {
      next := best;
      var filed := nodes[node].routes;
      for i := 0 to |filed|
        invariant next == best
        invariant forall k :: 0 <= k < i ==> !(filed[k] < |routes| && ok(routes[filed[k]].rule))
      {
        var position := filed[i];
        if best.Some? && position >= best.value {
          break;
        }
        if position < |routes| && ok(routes[position].rule) {
          next := Some(position);
          break;
        }
      }
    }

    /** The position of the first route in list order that matches. */
    method Find<R>(routes: seq<Route<R>>, path: string, ok: R -> bool) returns (best: Option<nat>)
      requires Indexes(routes)
      ensures IsLeast(best, Matches(routes, path, Indexed, ok))
    {
      hide TrieOk, Filed, IsLeast, InOrder, Key, Above, AtKey, Matches, Split, Indexed;
      ghost var labels := LabelsOf(this, routes);
      NoRouteYet();
      Root(nodes, labels);
      best := None;
      var current: nat := 0;
      if path == "" {
        FiledAt(nodes, labels, routes, current, ok);
        best := Consider(current, routes, ok, best, {});
        RootHoldsTheEmptyPrefix(routes, ok);
        assert {} + AtKey(routes, [], ok) == AtKey(routes, [], ok);
      } else {
        var segments := Split(path, '/');
        AboveIsMatches(routes, path, ok);
        var depth := 0;
        while depth < |segments| && segments[depth] in nodes[current].children
          invariant depth <= |segments| && current < |nodes| && labels[current] == segments[..depth]
          invariant IsLeast(best, Above(routes, segments, depth, ok))
        {
          StepDown(nodes, labels, current, segments[depth]);
          assert segments[..depth + 1] == segments[..depth] + [segments[depth]];
          AboveMore(routes, segments, depth, ok);
          current := nodes[current].children[segments[depth]];
          FiledAt(nodes, labels, routes, current, ok);
          best := Consider(current, routes, ok, best, Above(routes, segments, depth, ok));
          depth := depth + 1;
        }
        if depth < |segments| {
          NothingBelow(nodes, labels, routes, segments, depth, current, ok);
        }
      }
    }
  }

  lemma LabelsOf<R>(index: PrefixIndex, routes: seq<Route<R>>) returns (labels: seq<seq<string>>)
    requires index.Indexes(routes)
    ensures TrieOk(index.nodes, labels) && Filed(index.nodes, labels, routes, |routes|)
  {
    hide Rooted, Distinct, EdgesOk, EdgesComplete, FiledUnder;
    labels :| TrieOk(index.nodes, labels) && Filed(index.nodes, labels, routes, |routes|);
  }

  // ---------------------------------------------------------------- filing and finding

  lemma EmptyTrie<R>(routes: seq<Route<R>>)
    ensures TrieOk([Node(map[], [])], [[]]) && Filed([Node(map[], [])], [[]], routes, 0)
  {
  }

  /** Filing one more route at the node of its key keeps the trie and the filing. */
  lemma FileNext<R>(before: seq<Node>, nodes: seq<Node>, labels: seq<seq<string>>, grown: seq<seq<string>>, routes: seq<Route<R>>, position: nat, current: nat)
    requires TrieOk(nodes, grown) && labels <= grown && position < |routes| && current < |nodes|
    requires |before| == |labels| && Filed(before, labels, routes, position)
    requires forall i :: 0 <= i < |nodes| ==> nodes[i].routes == if i < |labels| then before[i].routes else []
    requires grown[current] == Key(routes[position].prefix)
    ensures var after := nodes[current := nodes[current].(routes := nodes[current].routes + [position])];
            TrieOk(after, grown) && Filed(after, grown, routes, position + 1)
  {
    var after := nodes[current := nodes[current].(routes := nodes[current].routes + [position])];
    RoutesDoNotShape(nodes, grown, current, nodes[current].routes + [position]);
    hide TrieOk, Key, FiledUnder;
    DistinctLabels(nodes, grown);
    forall i | 0 <= i < |after|
      ensures FiledUnder(after[i].routes, grown[i], routes, position + 1)
    {
      NothingFiledYet(before, labels, grown, routes, position, i);
      OneMoreFiled(nodes[i].routes, grown[i], routes, position);
    }
    forall p | 0 <= p < position + 1
      ensures Key(routes[p].prefix) in grown
    {
      assert p < position ==> Key(routes[p].prefix) in labels;
      assert grown[current] in grown;
    }
  }

  lemma DistinctLabels(nodes: seq<Node>, labels: seq<seq<string>>)
    requires TrieOk(nodes, labels)
    ensures Distinct(labels)
  {
  }

  lemma RoutesDoNotShape(nodes: seq<Node>, labels: seq<seq<string>>, i: nat, routes: seq<nat>)
    requires TrieOk(nodes, labels) && i < |nodes|
    ensures TrieOk(nodes[i := nodes[i].(routes := routes)], labels)
  {
  }

  /** Under a label that is new, nothing has been filed. */
  lemma NothingFiledYet<R>(before: seq<Node>, labels: seq<seq<string>>, grown: seq<seq<string>>, routes: seq<Route<R>>, n: nat, i: nat)
    requires n < |routes| && |before| == |labels| && Filed(before, labels, routes, n)
    requires labels <= grown && Distinct(grown) && i < |grown|
    ensures FiledUnder(if i < |labels| then before[i].routes else [], grown[i], routes, n)
  {
    hide Key;
    if |labels| <= i {
      forall p | 0 <= p < n
        ensures Key(routes[p].prefix) != grown[i]
      {
        var k :| 0 <= k < |labels| && labels[k] == Key(routes[p].prefix);
        assert grown[k] == labels[k];
      }
    } else {
      assert grown[i] == labels[i];
    }
  }

  lemma OneMoreFiled<R>(positions: seq<nat>, key: seq<string>, routes: seq<Route<R>>, n: nat)
    requires n < |routes| && FiledUnder(positions, key, routes, n)
    ensures FiledUnder(if Key(routes[n].prefix) == key then positions + [n] else positions, key, routes, n + 1)
  {
    hide Key;
    if Key(routes[n].prefix) == key {
      var more := positions + [n];
      forall j | 0 <= j < |positions|
        ensures more[j] < n
      {
        assert positions[j] in positions;
      }
      forall p | 0 <= p < n + 1 && Key(routes[p].prefix) == key
        ensures p in more
      {
        assert p < n ==> p in positions;
        assert more[|positions|] == n;
      }
    }
  }

  lemma NoRouteYet()
    ensures IsLeast(None, {})
  {
  }

  lemma Root(nodes: seq<Node>, labels: seq<seq<string>>)
    requires TrieOk(nodes, labels)
    ensures 0 < |labels| == |nodes| && labels[0] == []
  {
  }

  lemma StepDown(nodes: seq<Node>, labels: seq<seq<string>>, i: nat, segment: string)
    requires TrieOk(nodes, labels) && i < |nodes| && segment in nodes[i].children
    ensures nodes[i].children[segment] < |labels| == |nodes| && labels[nodes[i].children[segment]] == labels[i] + [segment]
  {
  }

  /** The acceptable routes filed under one key. */
  ghost function AtKey<R>(routes: seq<Route<R>>, key: seq<string>, ok: R -> bool): set<nat> {
    set p: nat | p < |routes| && Key(routes[p].prefix) == key && ok(routes[p].rule)
  }

  /** The acceptable routes filed on the way down, at most `depth` edges deep but not at the root. */
  ghost function Above<R>(routes: seq<Route<R>>, segments: seq<string>, depth: nat, ok: R -> bool): set<nat> {
    set p: nat | p < |routes| && 0 < |Key(routes[p].prefix)| <= depth && Key(routes[p].prefix) <= segments && ok(routes[p].rule)
  }

  lemma FiledAt<R>(nodes: seq<Node>, labels: seq<seq<string>>, routes: seq<Route<R>>, i: nat, ok: R -> bool)
    requires TrieOk(nodes, labels) && Filed(nodes, labels, routes, |routes|) && i < |nodes|
    ensures (set p | p in nodes[i].routes && p < |routes| && ok(routes[p].rule)) == AtKey(routes, labels[i], ok)
    ensures InOrder(nodes[i].routes)
  {
    forall p: nat | p < |routes| && Key(routes[p].prefix) == labels[i]
      ensures p in nodes[i].routes
    {
      assert FiledUnder(nodes[i].routes, labels[i], routes, |routes|);
    }
  }

  lemma AboveMore<R>(routes: seq<Route<R>>, segments: seq<string>, depth: nat, ok: R -> bool)
    requires depth < |segments|
    ensures Above(routes, segments, depth + 1, ok) == Above(routes, segments, depth, ok) + AtKey(routes, segments[..depth + 1], ok)
  {
  }

  lemma AboveIsMatches<R>(routes: seq<Route<R>>, path: string, ok: R -> bool)
    requires path != ""
    ensures Above(routes, Split(path, '/'), 0, ok) == {}
    ensures Above(routes, Split(path, '/'), |Split(path, '/')|, ok) == Matches(routes, path, Indexed, ok)
  {
  }

  lemma RootHoldsTheEmptyPrefix<R>(routes: seq<Route<R>>, ok: R -> bool)
    ensures AtKey(routes, [], ok) == Matches(routes, "", Indexed, ok)
  {
    forall p: nat | p < |routes|
      ensures Key(routes[p].prefix) == [] <==> Indexed("", routes[p].prefix)
    {
      IndexedIsUnderPrefix("", routes[p].prefix);
    }
  }

  /** Every ancestor of a node is a node. */
  lemma {:induction false} Ancestor(nodes: seq<Node>, labels: seq<seq<string>>, k: nat, m: nat) returns (a: nat)
    requires TrieOk(nodes, labels) && k < |nodes| && m <= |labels[k]|
    ensures a < |nodes| && labels[a] == labels[k][..m]
    decreases |labels[k]|
  {
    if m == |labels[k]| {
      a := k;
    } else {
      assert HasParent(labels, k);
      var p :| 0 <= p < |labels| && IsChild(labels, p, k);
      a := Ancestor(nodes, labels, p, m);
    }
  }

  /** Where the walk stops for want of an edge, no route is filed further down. */
  lemma NothingBelow<R>(nodes: seq<Node>, labels: seq<seq<string>>, routes: seq<Route<R>>, segments: seq<string>, depth: nat, i: nat, ok: R -> bool)
    requires TrieOk(nodes, labels) && Filed(nodes, labels, routes, |routes|)
    requires i < |nodes| && depth < |segments| && labels[i] == segments[..depth] && segments[depth] !in nodes[i].children
    ensures Above(routes, segments, |segments|, ok) == Above(routes, segments, depth, ok)
  {
    forall p: nat | p < |routes| && depth < |Key(routes[p].prefix)|
      ensures !(Key(routes[p].prefix) <= segments)
    {
      if Key(routes[p].prefix) <= segments {
        var k :| 0 <= k < |nodes| && labels[k] == Key(routes[p].prefix);
        var a := Ancestor(nodes, labels, k, depth + 1);
        assert IsChild(labels, i, a);
      }
    }
  }

  // ---------------------------------------------------------------- the table

  /** The linear scan small tables use. */
  method Scan<R>(routes: seq<Route<R>>, path: string, ok: R -> bool) returns (best: Option<nat>)
    ensures IsLeast(best, Matches(routes, path, UnderPrefix, ok))
  {
    for i := 0 to |routes|
      invariant forall p :: 0 <= p < i ==> !(UnderPrefix(path, routes[p].prefix) && ok(routes[p].rule))
    {
      if UnderPrefix(path, routes[i].prefix) && ok(routes[i].rule) {
        return Some(i);
      }
    }
    return None;
  }

  /** On a path that does not begin with a slash the index and the scan accept the same routes. */
  lemma SameMatches<R>(routes: seq<Route<R>>, path: string, ok: R -> bool)
    requires path == "" || path[0] != '/'
    ensures Matches(routes, path, Indexed, ok) == Matches(routes, path, UnderPrefix, ok)
  {
    forall p: nat | p < |routes|
      ensures Indexed(path, routes[p].prefix) <==> UnderPrefix(path, routes[p].prefix)
    {
      IndexedIsUnderPrefix(path, routes[p].prefix);
    }
  }

  /** Indexed or not, a request gets the first route in list order whose prefix, method and host match. */
  method MatchRequest<R>(routes: seq<Route<R>>, index: Option<PrefixIndex>, path: string, ok: R -> bool) returns (best: Option<nat>)
    requires index.Some? ==> index.value.Indexes(routes)
    ensures IsLeast(best, Matches(routes, Normalize(path), UnderPrefix, ok))
  {
    var normalized := Normalize(path);
    if index.Some? {
      best := index.value.Find(routes, normalized, ok);
      ghost var a, b := NormalizeIs(path);
      SameMatches(routes, normalized, ok);
    } else {
      best := Scan(routes, normalized, ok);
    }
  }
}
