/** The text rendering of a process in firepipe/visualiser.py: fixed-width
    centring of names, the split of a topological order into display
    layers, and the lines drawn for those layers. */
module Visualiser {
  import opened Wrappers
  import opened Digraph
  import opened Graphs
  import opened Processes

  // ---------------------------------------------------------------------
  // Text helpers with Python's semantics
  // ---------------------------------------------------------------------

  /** `s * n`: `n` copies of `s`, and nothing when `n` is zero or negative. */
  function Repeat(s: string, n: int): (r: string)
    ensures n <= 0 ==> r == ""
    ensures |s| == 1 ==> |r| == (if n <= 0 then 0 else n) && forall i :: 0 <= i < |r| ==> r[i] == s[0]
  {
    if n <= 0 then "" else s + Repeat(s, n - 1)
  }

  /** `len(s * n) == n * len(s)` for positive `n`. */
  lemma {:induction false} RepeatLength(s: string, n: int)
    ensures |Repeat(s, n)| == if n <= 0 then 0 else n * |s|
  {
    if n > 0 {
      RepeatLength(s, n - 1);
      assert n * |s| == |s| + (n - 1) * |s|;
    }
  }

  function Spaces(n: int): string {
    Repeat(" ", n)
  }

  /** `s[i]`: a negative index counts from the end; an index out of range
      raises `IndexError`, here `None`. */
  function PyIndex<T>(s: seq<T>, i: int): (r: Option<T>)
    ensures r.Some? <==> -|s| <= i < |s|
    ensures r.Some? ==> r.value == s[if i < 0 then |s| + i else i]
  {
    if 0 <= i < |s| then Some(s[i])
    else if -|s| <= i < 0 then Some(s[|s| + i])
    else None
  }

  /** `s` is `text` between runs of spaces, the right run equal to the
      left one or one longer. */
  ghost predicate Centred(s: string, text: string) {
    exists l: nat, rr: nat :: l <= rr <= l + 1 && s == Spaces(l) + text + Spaces(rr)
  }

  /** The padding step of `center_text`: pad `text` to `width`, half the room
      on the left (rounded down) and the rest on the right. */
  function Centre(text: string, width: int): (r: string)
    ensures |r| == if width < |text| then |text| else width
    ensures Centred(r, text)
  {
    var space := width - |text|;
    var left := space / 2;
    var right := space - left;
    var r := Spaces(left) + text + Spaces(right);
    var l: nat := if left < 0 then 0 else left;
    var rr: nat := if right < 0 then 0 else right;
    assert l <= rr <= l + 1 && r == Spaces(l) + text + Spaces(rr);
    r
  }

  /** `center_text(name, width)`. A name longer than `width - 2` is first
      replaced by its character at Python index `width - 5` and `"..."`;
      that index raises `IndexError` (`None`) when it lies before the
      start of the name. What the text looks like is `CenterTextCentres`. */
  function CenterText(name: string, width: int): (r: Option<string>)
    ensures r.None? <==> |name| > width - 2 && |name| + width < 5
    ensures r.Some? ==> |r.value| >= 2
  {
    if |name| > width - 2 then
      match PyIndex(name, width - 5)
      case None => None
      case Some(c) => Some(Centre([c] + "...", width))
    else
      Some(Centre(name, width))
  }

  /** A name that fits in `width - 2` is centred in exactly `width`
      characters; a longer one is shown as one of its characters and
      `"..."`, centred in `width` characters and never fewer than 4. */
  lemma {:induction false} CenterTextCentres(name: string, width: int)
    ensures |name| <= width - 2 ==>
      var r := CenterText(name, width);
      r.Some? && |r.value| == width && Centred(r.value, name)
    ensures |name| > width - 2 && |name| + width >= 5 ==>
      var i := if width - 5 < 0 then |name| + width - 5 else width - 5;
      var r := CenterText(name, width);
      && r.Some?
      && |r.value| == (if width < 4 then 4 else width)
      && Centred(r.value, [name[i]] + "...")
  {
  }

  /** Centring is unique: the left run of spaces is half the room rounded
      down, which is the split `center_text` computes. */
  lemma {:induction false} CentredSplit(s: string, text: string)
    requires Centred(s, text)
    ensures |s| >= |text|
    ensures var room := |s| - |text|; s == Spaces(room / 2) + text + Spaces(room - room / 2)
  {
    var l: nat, rr: nat :| l <= rr <= l + 1 && s == Spaces(l) + text + Spaces(rr);
    var room := |s| - |text|;
    assert room == l + rr;
    assert l == room / 2;
  }

  // ---------------------------------------------------------------------
  // Ordering by task name
  // ---------------------------------------------------------------------

  /** Python's `a <= b` on strings: code point by code point, a proper
      prefix first. */
  predicate NameLe(a: string, b: string) {
    |a| == 0 || (|b| > 0 && (a[0] < b[0] || (a[0] == b[0] && NameLe(a[1..], b[1..]))))
  }

  lemma {:induction false} NameLeTotal(a: string, b: string)
    ensures NameLe(a, b) || NameLe(b, a)
  {
    if |a| > 0 && |b| > 0 && a[0] == b[0] {
      NameLeTotal(a[1..], b[1..]);
    }
  }

  lemma {:induction false} NameLeTransitive(a: string, b: string, c: string)
    requires NameLe(a, b) && NameLe(b, c)
    ensures NameLe(a, c)
  {
    if |a| > 0 && a[0] == b[0] && b[0] == c[0] {
      NameLeTransitive(a[1..], b[1..], c[1..]);
    }
  }

  /** Every element of `s` has a name. */
  ghost predicate Named<T>(s: seq<T>, name: map<T, string>) {
    forall i :: 0 <= i < |s| ==> s[i] in name
  }

  /** Neighbours of `s` are in name order. */
  ghost predicate SortedByName<T>(s: seq<T>, name: map<T, string>)
    requires Named(s, name)
  {
    forall i :: 0 <= i < |s| - 1 ==> NameLe(name[s[i]], name[s[i + 1]])
  }

  /** `x` goes before the first element whose name is not smaller. */
  function Insert<T>(x: T, s: seq<T>, name: map<T, string>): (r: seq<T>)
    requires x in name && Named(s, name)
    ensures multiset(r) == multiset(s) + multiset{x}
    ensures Named(r, name)
    ensures r[0] == x || (|s| > 0 && r[0] == s[0])
  {
    if s == [] || NameLe(name[x], name[s[0]]) then [x] + s
    else
      assert s == [s[0]] + s[1..];
      [s[0]] + Insert(x, s[1..], name)
  }

  /** Inserting into a sorted sequence keeps it sorted. */
  lemma {:induction false} InsertKeepsSorted<T>(x: T, s: seq<T>, name: map<T, string>)
    requires x in name && Named(s, name) && SortedByName(s, name)
    ensures SortedByName(Insert(x, s, name), name)
  {
    if s != [] && !NameLe(name[x], name[s[0]]) {
      var rest := Insert(x, s[1..], name);
      InsertKeepsSorted(x, s[1..], name);
      NameLeTotal(name[x], name[s[0]]);
      assert NameLe(name[s[0]], name[rest[0]]);
    }
  }

  /** `sorted(s, key=lambda n: n.task.name)`, as an insertion sort. */
  function SortByName<T>(s: seq<T>, name: map<T, string>): (r: seq<T>)
    requires Named(s, name)
    ensures multiset(r) == multiset(s)
    ensures Named(r, name) && SortedByName(r, name)
  {
    if s == [] then []
    else
      assert s == [s[0]] + s[1..];
      InsertKeepsSorted(s[0], SortByName(s[1..], name), name);
      Insert(s[0], SortByName(s[1..], name), name)
  }

  /** Name order between neighbours is name order between any two. */
  lemma {:induction false} SortedPairwise<T>(s: seq<T>, name: map<T, string>, i: int, j: int)
    requires Named(s, name) && SortedByName(s, name) && 0 <= i < j < |s|
    ensures NameLe(name[s[i]], name[s[j]])
  {
    if i < j - 1 {
      SortedPairwise(s, name, i, j - 1);
      NameLeTransitive(name[s[i]], name[s[j - 1]], name[s[j]]);
    }
  }

  // ---------------------------------------------------------------------
  // Layers
  // ---------------------------------------------------------------------

  /** The layers one after the other. */
  function Flatten<T>(ls: seq<seq<T>>): seq<T> {
    if ls == [] then [] else Flatten(ls[..|ls| - 1]) + ls[|ls| - 1]
  }

  function Elems<T>(s: seq<T>): set<T> {
    set x | x in s
  }

  /** Each node of `order` comes after all of its predecessors. */
  ghost predicate PredecessorsFirst<T>(order: seq<T>, incoming: map<T, set<T>>) {
    forall k :: 0 <= k < |order| ==> order[k] in incoming && incoming[order[k]] <= Elems(order[..k])
  }

  /** What `topological_sort` returns lists each node after its predecessors. */
  lemma {:induction false} TopologicalOrderPredecessorsFirst<T>(g: Snapshot<T>, order: seq<T>)
    requires Consistent(g) && IsTopologicalOrder(g.nodes, g.outgoing, order)
    ensures PredecessorsFirst(order, g.incoming)
  {
    forall k | 0 <= k < |order|
      ensures order[k] in g.incoming && g.incoming[order[k]] <= Elems(order[..k])
    {
      assert order[k] in order;
      forall p | p in g.incoming[order[k]]
        ensures p in Elems(order[..k])
      {
        assert Edge(g.outgoing, p, order[k]);
        var j :| 0 <= j < |order| && order[j] == p;
        assert order[..k][j] == p;
      }
    }
  }

  /** Every node of a layer has its predecessors in the layers before it. */
  ghost predicate PredecessorsEarlier<T>(incoming: map<T, set<T>>, layers: seq<seq<T>>) {
    forall i, x {:trigger x in layers[i]} :: 0 <= i < |layers| && x in layers[i] ==>
      x in incoming && incoming[x] <= Elems(Flatten(layers[..i]))
  }

  /** The grouping rule of the layering loop, on the layers as built: a node
      that starts the first layer or extends a layer has all its predecessors
      in the layers before that layer, and a node that starts any later layer
      does not have them all in the layers before the one it closes. */
  ghost predicate Greedy<T>(incoming: map<T, set<T>>, raw: seq<seq<T>>) {
    forall i, j :: 0 <= i < |raw| && 0 <= j < |raw[i]| ==>
      && raw[i][j] in incoming
      && (if i == 0 || j > 0 then incoming[raw[i][j]] <= Elems(Flatten(raw[..i]))
          else !(incoming[raw[i][j]] <= Elems(Flatten(raw[..i - 1]))))
  }

  /** Only the first layer can be empty: a later one starts with the node
      that opened it. */
  ghost predicate Opened<T>(raw: seq<seq<T>>) {
    forall i :: 0 < i < |raw| ==> raw[i] != []
  }

  /** The layers as built keep the grouping rule, and every one after the
      first starts with the node that opened it. */
  ghost predicate GreedyLayers<T>(incoming: map<T, set<T>>, raw: seq<seq<T>>) {
    Greedy(incoming, raw) && Opened(raw)
  }

  /** The layers as built, the open one last, after the loop's turn for `n`. */
  function Place<T>(incoming: map<T, set<T>>, open: seq<seq<T>>, n: T): seq<seq<T>>
    requires open != [] && n in incoming
  {
    var closed := open[..|open| - 1];
    if incoming[n] <= Elems(Flatten(closed)) then closed + [open[|open| - 1] + [n]]
    else open + [[n]]
  }

  /** The layers as built, the open one last, before the turn for the last node. */
  function Unplace<T>(open: seq<seq<T>>): seq<seq<T>>
    requires open != [] && open[|open| - 1] != []
  {
    var m := |open| - 1;
    if |open[m]| > 1 || m == 0 then open[..m] + [open[m][..|open[m]| - 1]] else open[..m]
  }

  /** A turn of the loop keeps the grouping rule on the layers as built,
      the open one last; `committed` holds the closed layers' nodes. */
  lemma {:induction false} GreedyStep<T>(incoming: map<T, set<T>>, committed: set<T>,
                                         raw: seq<seq<T>>, layer: seq<T>, n: T)
    requires committed == Elems(Flatten(raw)) && n in incoming
    requires Greedy(incoming, raw + [layer]) && Opened(raw + [layer])
    ensures var open := if incoming[n] <= committed then raw + [layer + [n]] else raw + [layer] + [[n]];
      Greedy(incoming, open) && Opened(open)
  {
    if incoming[n] <= committed {
      JoinGreedy(incoming, raw, layer, n);
    } else {
      assert (raw + [layer])[..|raw|] == raw;
      BreakGreedy(incoming, raw + [layer], n);
    }
  }

  /** A node whose predecessors are all in the closed layers extends the open one. */
  lemma {:induction false} JoinGreedy<T>(incoming: map<T, set<T>>, closed: seq<seq<T>>, layer: seq<T>, n: T)
    requires Greedy(incoming, closed + [layer]) && Opened(closed + [layer])
    requires n in incoming && incoming[n] <= Elems(Flatten(closed))
    ensures Greedy(incoming, closed + [layer + [n]]) && Opened(closed + [layer + [n]])
    ensures Flatten(closed + [layer + [n]]) == Flatten(closed) + layer + [n]
  {
    var open := closed + [layer];
    var r := closed + [layer + [n]];
    FlattenSnoc(closed, layer + [n]);
    assert forall i :: 0 <= i < |closed| ==> r[i] == open[i];
    forall i, j | 0 <= i < |r| && 0 <= j < |r[i]|
      ensures r[i][j] in incoming
      ensures if i == 0 || j > 0 then incoming[r[i][j]] <= Elems(Flatten(r[..i]))
              else !(incoming[r[i][j]] <= Elems(Flatten(r[..i - 1])))
    {
      assert r[..i] == open[..i];
      if i > 0 {
        assert r[..i - 1] == open[..i - 1];
      }
      if i < |closed| || j < |layer| {
        assert r[i][j] == open[i][j];
      }
    }
  }

  /** Any other node closes the open layer and opens the next one. */
  lemma {:induction false} BreakGreedy<T>(incoming: map<T, set<T>>, open: seq<seq<T>>, n: T)
    requires open != [] && Greedy(incoming, open) && Opened(open)
    requires n in incoming && !(incoming[n] <= Elems(Flatten(open[..|open| - 1])))
    ensures Greedy(incoming, open + [[n]]) && Opened(open + [[n]])
    ensures Flatten(open + [[n]]) == Flatten(open) + [n]
  {
    var r := open + [[n]];
    FlattenSnoc(open, [n]);
    forall i, j | 0 <= i < |r| && 0 <= j < |r[i]|
      ensures r[i][j] in incoming
      ensures if i == 0 || j > 0 then incoming[r[i][j]] <= Elems(Flatten(r[..i]))
              else !(incoming[r[i][j]] <= Elems(Flatten(r[..i - 1])))
    {
      if i < |open| {
        assert r[..i] == open[..i];
        if i > 0 {
          assert r[..i - 1] == open[..i - 1];
        }
      } else {
        assert r[..i - 1] == open[..|open| - 1];
      }
    }
  }

  /** Taking back the last node leaves layers that keep the grouping rule. */
  lemma {:induction false} UnplaceGreedy<T>(incoming: map<T, set<T>>, open: seq<seq<T>>)
    requires open != [] && open[|open| - 1] != []
    requires Greedy(incoming, open) && Opened(open)
    ensures Unplace(open) != [] && Greedy(incoming, Unplace(open)) && Opened(Unplace(open))
    ensures Flatten(Unplace(open)) + [open[|open| - 1][|open[|open| - 1]| - 1]] == Flatten(open)
  {
    var m := |open| - 1;
    var last := open[m];
    var trimmed := last[..|last| - 1];
    assert open == open[..m] + [last];
    FlattenSnoc(open[..m], last);
    assert last == trimmed + [last[|last| - 1]];
    if |last| > 1 || m == 0 {
      FlattenSnoc(open[..m], trimmed);
      TrimGreedy(incoming, open[..m], trimmed, last[|last| - 1]);
    } else {
      assert last == [last[0]];
      TakeGreedy(incoming, open, m);
    }
  }

  /** Dropping the last node of the open layer keeps the grouping rule. */
  lemma {:induction false} TrimGreedy<T>(incoming: map<T, set<T>>, closed: seq<seq<T>>, layer: seq<T>, n: T)
    requires Greedy(incoming, closed + [layer + [n]]) && Opened(closed + [layer + [n]])
    requires closed != [] ==> layer != []
    ensures Greedy(incoming, closed + [layer]) && Opened(closed + [layer])
  {
    var open := closed + [layer + [n]];
    var r := closed + [layer];
    assert forall i :: 0 <= i < |closed| ==> r[i] == open[i];
    forall i, j | 0 <= i < |r| && 0 <= j < |r[i]|
      ensures r[i][j] in incoming
      ensures if i == 0 || j > 0 then incoming[r[i][j]] <= Elems(Flatten(r[..i]))
              else !(incoming[r[i][j]] <= Elems(Flatten(r[..i - 1])))
    {
      assert r[..i] == open[..i];
      if i > 0 {
        assert r[..i - 1] == open[..i - 1];
      }
      assert r[i][j] == open[i][j];
    }
  }

  /** The first `m` layers keep the grouping rule. */
  lemma {:induction false} TakeGreedy<T>(incoming: map<T, set<T>>, open: seq<seq<T>>, m: int)
    requires Greedy(incoming, open) && Opened(open) && 0 <= m <= |open|
    ensures Greedy(incoming, open[..m]) && Opened(open[..m])
  {
    var r := open[..m];
    forall i, j | 0 <= i < |r| && 0 <= j < |r[i]|
      ensures r[i][j] in incoming
      ensures if i == 0 || j > 0 then incoming[r[i][j]] <= Elems(Flatten(r[..i]))
              else !(incoming[r[i][j]] <= Elems(Flatten(r[..i - 1])))
    {
      assert r[..i] == open[..i];
      if i > 0 {
        assert r[..i - 1] == open[..i - 1];
      }
    }
  }

  /** Layers that keep the grouping rule are those the loop builds: taking
      back the last node and placing it again gives them back. */
  lemma {:induction false} PlaceUnplace<T>(incoming: map<T, set<T>>, open: seq<seq<T>>)
    requires open != [] && open[|open| - 1] != []
    requires Greedy(incoming, open) && Opened(open)
    ensures Unplace(open) != [] && open[|open| - 1][|open[|open| - 1]| - 1] in incoming
    ensures open == Place(incoming, Unplace(open), open[|open| - 1][|open[|open| - 1]| - 1])
  {
    var m := |open| - 1;
    var last := open[m];
    var n := last[|last| - 1];
    var d := Unplace(open);
    if |last| > 1 || m == 0 {
      assert d[..|d| - 1] == open[..m];
      assert last == last[..|last| - 1] + [n];
      assert open == open[..m] + [last];
    } else {
      assert d[..|d| - 1] == open[..m - 1];
      assert last == [n];
      assert open == d + [[n]];
    }
  }

  /** Two ways of building layers, the open one last, that both keep the
      grouping rule on the same nodes in the same order are the same. */
  lemma {:induction false} OpenGreedyUnique<T>(order: seq<T>, incoming: map<T, set<T>>, r1: seq<seq<T>>, r2: seq<seq<T>>)
    requires r1 != [] && Flatten(r1) == order && Greedy(incoming, r1) && Opened(r1)
    requires r2 != [] && Flatten(r2) == order && Greedy(incoming, r2) && Opened(r2)
    ensures r1 == r2
    decreases |order|
  {
    LastLayerNonEmpty(order, r1);
    LastLayerNonEmpty(order, r2);
    if order != [] {
      var n := order[|order| - 1];
      UnplaceGreedy(incoming, r1);
      UnplaceGreedy(incoming, r2);
      var prefix := order[..|order| - 1];
      assert order == prefix + [n];
      OpenGreedyUnique(prefix, incoming, Unplace(r1), Unplace(r2));
      PlaceUnplace(incoming, r1);
      PlaceUnplace(incoming, r2);
    }
  }

  /** The last layer holds the last node; with no nodes there is one empty layer. */
  lemma {:induction false} LastLayerNonEmpty<T>(order: seq<T>, r: seq<seq<T>>)
    requires r != [] && Flatten(r) == order && Opened(r)
    ensures order != [] ==> r[|r| - 1] != []
    ensures order == [] ==> r == [[]]
  {
    var m := |r| - 1;
    assert r == r[..m] + [r[m]];
    FlattenSnoc(r[..m], r[m]);
  }

  /** The grouping rule, with every layer after the first non-empty, fixes
      how an order splits into layers. */
  lemma {:induction false} GreedyUnique<T>(order: seq<T>, incoming: map<T, set<T>>, r1: seq<seq<T>>, r2: seq<seq<T>>)
    requires Flatten(r1) == order && Greedy(incoming, r1) && Opened(r1) && (r1 == [] <==> order == [])
    requires Flatten(r2) == order && Greedy(incoming, r2) && Opened(r2) && (r2 == [] <==> order == [])
    ensures r1 == r2
  {
    if order != [] {
      OpenGreedyUnique(order, incoming, r1, r2);
    }
  }

  /** The layering loop of `render_process`: a node joins the current layer when
      all its predecessors are committed; otherwise the current layer is
      committed, stored sorted by name, and a new layer starts with the
      node. The last layer is stored unsorted. `raw` holds the layers as
      built, before sorting; `GreedyUnique` shows they are the only split of
      `order` that keeps this rule. */
  method Layering<T(==)>(order: seq<T>, incoming: map<T, set<T>>, name: map<T, string>)
    returns (layers: seq<seq<T>>, ghost raw: seq<seq<T>>)
    requires forall j :: 0 <= j < |order| ==> order[j] in incoming && order[j] in name
    ensures Flatten(raw) == order && |raw| == |layers|
    ensures multiset(Flatten(layers)) == multiset(order)
    ensures forall i :: 0 <= i < |layers| - 1 ==> StoredSorted(layers[i], raw[i], name)
    ensures |layers| > 0 ==> layers[|layers| - 1] == raw[|raw| - 1]
    ensures layers == [] <==> order == []
    ensures forall i :: 0 < i < |layers| ==> layers[i] != []
    ensures PredecessorsFirst(order, incoming) ==>
      (forall i :: 0 <= i < |layers| ==> layers[i] != []) && PredecessorsEarlier(incoming, layers)
    ensures GreedyLayers(incoming, raw)
  {
    var committed, closed, layer;
    ghost var built;
    committed, closed, built, layer := GroupNodes(order, incoming, name);
    layers := if layer == [] then closed else closed + [layer];
    raw := if layer == [] then built else built + [layer];
    FinishLayers(order, incoming, name, committed, closed, built, layer, layers, raw);
  }

  /** The `for` loop of the layering: `closed` holds the layers stored so
      far (`built` as built), `layer` the one still open and `committed`
      the nodes of the closed ones. */
  method GroupNodes<T(==)>(order: seq<T>, incoming: map<T, set<T>>, name: map<T, string>)
    returns (committed: set<T>, closed: seq<seq<T>>, ghost built: seq<seq<T>>, layer: seq<T>)
    requires forall j :: 0 <= j < |order| ==> order[j] in incoming && order[j] in name
    ensures LayersSoFar(order, incoming, name, |order|, committed, closed, built, layer)
  {
    committed := {};
    closed := [];
    built := [];
    layer := [];
    for k := 0 to |order|
      invariant LayersSoFar(order, incoming, name, k, committed, closed, built, layer)
    {
      var node := order[k];
      LayerStep(order, incoming, name, k, committed, closed, built, layer);
      if incoming[node] <= committed {
        layer := layer + [node];
      } else {
        committed := committed + Elems(layer);
        closed := closed + [SortByName(layer, name)];
        built := built + [layer];
        layer := [node];
      }
    }
  }

  /** The open layer, if any, keeps the grouping rule when it is stored. */
  lemma {:induction false} FinishGreedy<T>(order: seq<T>, incoming: map<T, set<T>>, name: map<T, string>,
                                           committed: set<T>, layers0: seq<seq<T>>, raw0: seq<seq<T>>, layer: seq<T>,
                                           raw: seq<seq<T>>)
    requires LayersSoFar(order, incoming, name, |order|, committed, layers0, raw0, layer)
    requires raw == (if layer == [] then raw0 else raw0 + [layer])
    ensures GreedyLayers(incoming, raw)
  {
  }

  /** `stored` is `built` put through the stable sort by name, which by
      `SortByName` is a name-ordered permutation of it. */
  ghost predicate StoredSorted<T>(stored: seq<T>, built: seq<T>, name: map<T, string>) {
    Named(built, name) && stored == SortByName(built, name)
  }

  /** Every built layer put through the stable sort by name. */
  function SortAll<T>(raw: seq<seq<T>>, name: map<T, string>): (r: seq<seq<T>>)
    requires forall i :: 0 <= i < |raw| ==> Named(raw[i], name)
    ensures |r| == |raw|
  {
    if raw == [] then [] else SortAll(raw[..|raw| - 1], name) + [SortByName(raw[|raw| - 1], name)]
  }

  /** Layer `i` of `SortAll` is built layer `i` sorted. */
  lemma {:induction false} SortAllAt<T>(raw: seq<seq<T>>, name: map<T, string>, i: int)
    requires forall j :: 0 <= j < |raw| ==> Named(raw[j], name)
    requires 0 <= i < |raw|
    ensures SortAll(raw, name)[i] == SortByName(raw[i], name)
  {
    if i < |raw| - 1 {
      SortAllAt(raw[..|raw| - 1], name, i);
    }
  }

  lemma {:induction false} SortAllSnoc<T>(raw: seq<seq<T>>, layer: seq<T>, name: map<T, string>)
    requires forall j :: 0 <= j < |raw| ==> Named(raw[j], name)
    requires Named(layer, name)
    ensures SortAll(raw + [layer], name) == SortAll(raw, name) + [SortByName(layer, name)]
  {
    assert (raw + [layer])[..|raw|] == raw;
  }

  /** The layers of `Layering` after the first `k` nodes of `order`, as built
      and as stored, with `layer` still open. */
  ghost predicate LayerShape<T>(order: seq<T>, name: map<T, string>, k: int,
                                layers: seq<seq<T>>, raw: seq<seq<T>>, layer: seq<T>) {
    && 0 <= k <= |order|
    && |raw| == |layers|
    && (forall i :: 0 <= i < |raw| ==> Named(raw[i], name))
    && layers == SortAll(raw, name)
    && Named(layer, name)
    && Flatten(raw) + layer == order[..k]
    && multiset(Flatten(raw)) == multiset(Flatten(layers))
    && (k > 0 ==> layer != [])
    && (k == 0 ==> layers == [])
    && (forall i :: 0 < i < |layers| ==> layers[i] != [])
  }

  /** `committed` holds the stored layers, and on an order that lists
      predecessors first every node placed so far has its predecessors
      committed before its own layer. */
  ghost predicate LayerReady<T>(order: seq<T>, incoming: map<T, set<T>>, committed: set<T>,
                                layers: seq<seq<T>>, raw: seq<seq<T>>, layer: seq<T>) {
    && committed == Elems(Flatten(raw))
    && committed == Elems(Flatten(layers))
    && (PredecessorsFirst(order, incoming) ==>
          && (|layers| > 0 ==> layers[0] != [])
          && PredecessorsEarlier(incoming, layers)
          && (forall j :: 0 <= j < |layer| ==> layer[j] in incoming && incoming[layer[j]] <= committed))
  }

  ghost predicate LayersSoFar<T>(order: seq<T>, incoming: map<T, set<T>>, name: map<T, string>, k: int,
                                 committed: set<T>, layers: seq<seq<T>>, raw: seq<seq<T>>, layer: seq<T>) {
    && (forall j :: 0 <= j < |order| ==> order[j] in incoming && order[j] in name)
    && LayerShape(order, name, k, layers, raw, layer)
    && LayerReady(order, incoming, committed, layers, raw, layer)
    && Greedy(incoming, raw + [layer]) && Opened(raw + [layer])
  }

  /** One turn of the layering loop, for the node `order[k]`. */
  lemma {:induction false} LayerStep<T>(order: seq<T>, incoming: map<T, set<T>>, name: map<T, string>, k: int,
                                        committed: set<T>, layers: seq<seq<T>>, raw: seq<seq<T>>, layer: seq<T>)
    requires LayersSoFar(order, incoming, name, k, committed, layers, raw, layer) && k < |order|
    ensures order[k] in incoming && Named(layer, name)
    ensures var join := incoming[order[k]] <= committed;
      LayersSoFar(order, incoming, name, k + 1,
                  if join then committed else committed + Elems(layer),
                  if join then layers else layers + [SortByName(layer, name)],
                  if join then raw else raw + [layer],
                  if join then layer + [order[k]] else [order[k]])
  {
    if incoming[order[k]] <= committed {
      JoinShape(order, name, k, layers, raw, layer);
      JoinReady(order, incoming, name, k, committed, layers, raw, layer);
    } else {
      BreakShape(order, name, k, layers, raw, layer);
      BreakReady(order, incoming, name, k, committed, layers, raw, layer);
    }
    GreedyStep(incoming, committed, raw, layer, order[k]);
  }

  /** A node whose predecessors are all committed joins the open layer. */
  lemma {:induction false} JoinShape<T>(order: seq<T>, name: map<T, string>, k: int,
                                        layers: seq<seq<T>>, raw: seq<seq<T>>, layer: seq<T>)
    requires forall j :: 0 <= j < |order| ==> order[j] in name
    requires LayerShape(order, name, k, layers, raw, layer) && k < |order|
    ensures LayerShape(order, name, k + 1, layers, raw, layer + [order[k]])
  {
    assert order[..k + 1] == order[..k] + [order[k]];
    assert Flatten(raw) + (layer + [order[k]]) == order[..k + 1];
  }

  lemma {:induction false} JoinReady<T>(order: seq<T>, incoming: map<T, set<T>>, name: map<T, string>, k: int,
                                        committed: set<T>, layers: seq<seq<T>>, raw: seq<seq<T>>, layer: seq<T>)
    requires forall j :: 0 <= j < |order| ==> order[j] in incoming
    requires LayerReady(order, incoming, committed, layers, raw, layer)
    requires 0 <= k < |order| && incoming[order[k]] <= committed
    ensures LayerReady(order, incoming, committed, layers, raw, layer + [order[k]])
  {
    var layer' := layer + [order[k]];
    if PredecessorsFirst(order, incoming) {
      assert forall j :: 0 <= j < |layer'| ==> layer'[j] in incoming && incoming[layer'[j]] <= committed;
    }
  }

  /** Any other node closes the open layer, which is committed and stored
      sorted, and opens the next one. */
  lemma {:induction false} BreakShape<T>(order: seq<T>, name: map<T, string>, k: int,
                                         layers: seq<seq<T>>, raw: seq<seq<T>>, layer: seq<T>)
    requires forall j :: 0 <= j < |order| ==> order[j] in name
    requires LayerShape(order, name, k, layers, raw, layer) && k < |order|
    ensures LayerShape(order, name, k + 1, layers + [SortByName(layer, name)], raw + [layer], [order[k]])
  {
    var sorted := SortByName(layer, name);
    BreakCovers(order, k, raw, layer);
    BreakStores(name, layers, raw, layer);
    SortedSameElems(layer, name);
    assert forall i :: 0 <= i < |raw| + 1 ==> Named((raw + [layer])[i], name);
    assert forall i :: 0 < i < |layers| + 1 ==> (layers + [sorted])[i] != [];
  }

  /** The closed layer joins the built layers, which still cover the prefix. */
  lemma {:induction false} BreakCovers<T>(order: seq<T>, k: int, raw: seq<seq<T>>, layer: seq<T>)
    requires 0 <= k < |order| && Flatten(raw) + layer == order[..k]
    ensures Flatten(raw + [layer]) + [order[k]] == order[..k + 1]
  {
    FlattenSnoc(raw, layer);
    assert order[..k + 1] == order[..k] + [order[k]];
  }

  /** The closed layer is stored sorted, with the same nodes. */
  lemma {:induction false} BreakStores<T>(name: map<T, string>, layers: seq<seq<T>>, raw: seq<seq<T>>, layer: seq<T>)
    requires forall j :: 0 <= j < |raw| ==> Named(raw[j], name)
    requires Named(layer, name) && multiset(Flatten(raw)) == multiset(Flatten(layers))
    ensures multiset(Flatten(raw + [layer])) == multiset(Flatten(layers + [SortByName(layer, name)]))
    ensures SortAll(raw + [layer], name) == SortAll(raw, name) + [SortByName(layer, name)]
  {
    FlattenSnoc(raw, layer);
    FlattenSnoc(layers, SortByName(layer, name));
    SortAllSnoc(raw, layer, name);
  }

  lemma {:induction false} BreakReady<T>(order: seq<T>, incoming: map<T, set<T>>, name: map<T, string>, k: int,
                                         committed: set<T>, layers: seq<seq<T>>, raw: seq<seq<T>>, layer: seq<T>)
    requires forall j :: 0 <= j < |order| ==> order[j] in incoming && order[j] in name
    requires LayerShape(order, name, k, layers, raw, layer)
    requires LayerReady(order, incoming, committed, layers, raw, layer)
    requires k < |order| && !(incoming[order[k]] <= committed)
    ensures LayerReady(order, incoming, committed + Elems(layer),
                       layers + [SortByName(layer, name)], raw + [layer], [order[k]])
  {
    var sorted := SortByName(layer, name);
    FlattenSnoc(raw, layer);
    FlattenSnoc(layers, sorted);
    SortedSameElems(layer, name);
    ElemsConcat(Flatten(raw), layer);
    ElemsConcat(Flatten(layers), sorted);
    if PredecessorsFirst(order, incoming) {
      assert k > 0;
      BreakEarlier(incoming, layers, layer, sorted);
      OpenReady(order, incoming, k, committed, raw, layer);
    }
  }

  lemma {:induction false} FlattenSnoc<T>(ls: seq<seq<T>>, l: seq<T>)
    ensures Flatten(ls + [l]) == Flatten(ls) + l
  {
    assert (ls + [l])[..|ls|] == ls;
  }

  lemma {:induction false} ElemsConcat<T>(a: seq<T>, b: seq<T>)
    ensures Elems(a + b) == Elems(a) + Elems(b)
  {
    assert forall x :: x in a + b <==> x in a || x in b;
  }

  /** Sorting a layer keeps its nodes. */
  lemma {:induction false} SortedSameElems<T>(layer: seq<T>, name: map<T, string>)
    requires Named(layer, name)
    ensures Elems(SortByName(layer, name)) == Elems(layer)
    ensures layer != [] ==> SortByName(layer, name) != []
  {
    var sorted := SortByName(layer, name);
    assert forall x :: x in sorted <==> x in multiset(sorted);
    assert forall x :: x in layer <==> x in multiset(layer);
    if layer != [] {
      assert layer[0] in multiset(sorted);
    }
  }

  /** A closed layer whose nodes have their predecessors committed keeps
      every stored layer after its predecessors. */
  lemma {:induction false} BreakEarlier<T>(incoming: map<T, set<T>>, layers: seq<seq<T>>, layer: seq<T>, sorted: seq<T>)
    requires PredecessorsEarlier(incoming, layers)
    requires forall j :: 0 <= j < |layer| ==> layer[j] in incoming && incoming[layer[j]] <= Elems(Flatten(layers))
    requires Elems(sorted) == Elems(layer)
    ensures PredecessorsEarlier(incoming, layers + [sorted])
  {
    var layers' := layers + [sorted];
    forall i, x | 0 <= i < |layers'| && x in layers'[i]
      ensures x in incoming && incoming[x] <= Elems(Flatten(layers'[..i]))
    {
      if i < |layers| {
        assert layers'[..i] == layers[..i];
      } else {
        assert layers'[..i] == layers;
        assert x in Elems(layer);
        var j :| 0 <= j < |layer| && layer[j] == x;
      }
    }
  }

  /** The node that opens the next layer has its predecessors among the
      nodes placed before it. */
  lemma {:induction false} OpenReady<T>(order: seq<T>, incoming: map<T, set<T>>, k: int,
                                        committed: set<T>, raw: seq<seq<T>>, layer: seq<T>)
    requires PredecessorsFirst(order, incoming)
    requires 0 <= k < |order| && Flatten(raw) + layer == order[..k]
    requires committed == Elems(Flatten(raw))
    ensures order[k] in incoming && incoming[order[k]] <= committed + Elems(layer)
  {
    ElemsConcat(Flatten(raw), layer);
  }

  /** The open layer, if any, is stored as it is. */
  lemma {:induction false} FinishLayers<T>(order: seq<T>, incoming: map<T, set<T>>, name: map<T, string>,
                                           committed: set<T>, layers0: seq<seq<T>>, raw0: seq<seq<T>>, layer: seq<T>,
                                           layers: seq<seq<T>>, raw: seq<seq<T>>)
    requires LayersSoFar(order, incoming, name, |order|, committed, layers0, raw0, layer)
    requires layers == (if layer == [] then layers0 else layers0 + [layer])
    requires raw == (if layer == [] then raw0 else raw0 + [layer])
    ensures Flatten(raw) == order && |raw| == |layers|
    ensures multiset(Flatten(layers)) == multiset(order)
    ensures forall i :: 0 <= i < |layers| - 1 ==> StoredSorted(layers[i], raw[i], name)
    ensures |layers| > 0 ==> layers[|layers| - 1] == raw[|raw| - 1]
    ensures layers == [] <==> order == []
    ensures forall i :: 0 < i < |layers| ==> layers[i] != []
    ensures PredecessorsFirst(order, incoming) ==>
      (forall i :: 0 <= i < |layers| ==> layers[i] != []) && PredecessorsEarlier(incoming, layers)
    ensures GreedyLayers(incoming, raw)
  {
    FinishShape(order, name, layers0, raw0, layer, layers, raw);
    FinishReady(order, incoming, committed, layers0, raw0, layer, layers);
    FinishGreedy(order, incoming, name, committed, layers0, raw0, layer, raw);
  }

  lemma {:induction false} FinishShape<T>(order: seq<T>, name: map<T, string>,
                                          layers0: seq<seq<T>>, raw0: seq<seq<T>>, layer: seq<T>,
                                          layers: seq<seq<T>>, raw: seq<seq<T>>)
    requires LayerShape(order, name, |order|, layers0, raw0, layer)
    requires layers == (if layer == [] then layers0 else layers0 + [layer])
    requires raw == (if layer == [] then raw0 else raw0 + [layer])
    ensures Flatten(raw) == order && |raw| == |layers|
    ensures multiset(Flatten(layers)) == multiset(order)
    ensures forall i :: 0 <= i < |layers| - 1 ==> StoredSorted(layers[i], raw[i], name)
    ensures |layers| > 0 ==> layers[|layers| - 1] == raw[|raw| - 1]
    ensures layers == [] <==> order == []
    ensures forall i :: 0 < i < |layers| ==> layers[i] != []
  {
    forall i | 0 <= i < |layers| - 1
      ensures StoredSorted(layers[i], raw[i], name)
    {
      SortAllAt(raw0, name, i);
    }
    assert order[..|order|] == order;
    if layer != [] {
      assert layers[..|layers0|] == layers0 && raw[..|raw0|] == raw0;
      assert Flatten(raw) == Flatten(raw0) + layer;
      assert Flatten(layers) == Flatten(layers0) + layer;
    }
  }

  lemma {:induction false} FinishReady<T>(order: seq<T>, incoming: map<T, set<T>>,
                                          committed: set<T>, layers0: seq<seq<T>>, raw0: seq<seq<T>>, layer: seq<T>,
                                          layers: seq<seq<T>>)
    requires forall i :: 0 < i < |layers0| ==> layers0[i] != []
    requires LayerReady(order, incoming, committed, layers0, raw0, layer)
    requires layers == (if layer == [] then layers0 else layers0 + [layer])
    ensures PredecessorsFirst(order, incoming) ==>
      (forall i :: 0 <= i < |layers| ==> layers[i] != []) && PredecessorsEarlier(incoming, layers)
  {
    if PredecessorsFirst(order, incoming) && layer != [] {
      assert layers[..|layers0|] == layers0;
      forall i, x | 0 <= i < |layers| && x in layers[i]
        ensures x in incoming && incoming[x] <= Elems(Flatten(layers[..i]))
      {
        if i < |layers0| {
          assert layers[..i] == layers0[..i];
        } else {
          assert layers[..i] == layers0;
          var j :| 0 <= j < |layer| && layer[j] == x;
        }
      }
    }
  }

  /** A node of a layer is a node of the flattened layers. */
  lemma {:induction false} InFlatten<T>(ls: seq<seq<T>>, i: int, x: T)
    requires 0 <= i < |ls| && x in ls[i]
    ensures x in Flatten(ls)
  {
    if i < |ls| - 1 {
      InFlatten(ls[..|ls| - 1], i, x);
    }
  }

  // ---------------------------------------------------------------------
  // Lines
  // ---------------------------------------------------------------------

  /** The number of places where a layer differs in size from the one
      before it. */
  function SizeChanges<T>(ls: seq<seq<T>>): nat {
    if |ls| < 2 then 0
    else SizeChanges(ls[..|ls| - 1]) + (if |ls[|ls| - 1]| != |ls[|ls| - 2]| then 1 else 0)
  }

  /** `''.join(center_text(n.task.name, width) for n in layer)`; the first
      `IndexError` aborts the whole row. */
  function CentredRow<T>(layer: seq<T>, name: map<T, string>, width: int): (r: Option<string>)
    requires Named(layer, name)
    ensures r.Some? <==> forall i :: 0 <= i < |layer| ==> CenterText(name[layer[i]], width).Some?
  {
    if layer == [] then Some("")
    else
      match CenterText(name[layer[0]], width)
      case None => None
      case Some(cell) =>
        match CentredRow(layer[1..], name, width)
        case None => None
        case Some(rest) => Some(cell + rest)
  }

  /** With room for at least two characters of a name, every cell of the
      row is exactly `width` wide. */
  lemma {:induction false} CentredRowWidth<T>(layer: seq<T>, name: map<T, string>, width: int)
    requires Named(layer, name) && width >= 4
    ensures var r := CentredRow(layer, name, width); r.Some? ==> |r.value| == |layer| * width
  {
    var r := CentredRow(layer, name, width);
    if layer != [] && r.Some? {
      var cell := CenterText(name[layer[0]], width);
      var rest := CentredRow(layer[1..], name, width);
      CentredRowWidth(layer[1..], name, width);
      CenterTextWidth(name[layer[0]], width);
      assert r.value == cell.value + rest.value;
      assert |layer| * width == width + (|layer| - 1) * width;
    }
  }

  /** A name shown in at least four columns takes exactly `width`. */
  lemma {:induction false} CenterTextWidth(name: string, width: int)
    requires width >= 4
    ensures var r := CenterText(name, width); r.Some? && |r.value| == width
  {
    CenterTextCentres(name, width);
  }

  /** The bar line of a layer: `center_text('|', node_width)` once per
      node, the whole centred in the row. */
  function BarLine<T>(layer: seq<T>, nodeWidth: int, rowWidth: int): (r: Option<string>)
    ensures r.Some? ==> |r.value| >= 2
  {
    match CenterText("|", nodeWidth)
    case None => None
    case Some(bar) => CenterText(Repeat(bar, |layer|), rowWidth)
  }

  /** The name line of a layer: each task name centred in its cell, the
      row of cells centred in the row. */
  function NameLine<T>(layer: seq<T>, name: map<T, string>, nodeWidth: int, rowWidth: int): (r: Option<string>)
    requires Named(layer, name)
    ensures r.Some? ==> |r.value| >= 2
  {
    match CentredRow(layer, name, nodeWidth)
    case None => None
    case Some(names) => CenterText(names, rowWidth)
  }

  /** The separator above a layer whose size differs from the one before:
      dashes one cell narrower than the wider of the two, centred. */
  function SplitLine(size: int, prevSize: int, nodeWidth: int, rowWidth: int): (r: Option<string>)
    ensures r.Some? ==> |r.value| >= 2
  {
    CenterText(Repeat(Repeat("-", nodeWidth), Max(size, prevSize) - 1), rowWidth)
  }

  /** Where the name line of layer `i` is drawn: two lines for each layer
      before it, and two more for each size change up to and including
      its own. */
  function NameIndex<T>(layers: seq<seq<T>>, i: int): int
    requires 0 <= i < |layers|
  {
    2 * i + 2 * SizeChanges(layers[..i + 1])
  }

  /** The lines of layer `i` as `render_process` draws them: its name line
      at `NameIndex`; its bar line right below unless it is the last layer;
      and, when its size differs from the layer before, the separator and
      its bar line right above. */
  ghost predicate LayerDrawn<T>(layers: seq<seq<T>>, name: map<T, string>, nodeWidth: int, rowWidth: int,
                                lines: seq<string>, i: int)
    requires 0 <= i < |layers| && Named(layers[i], name)
  {
    var at := NameIndex(layers, i);
    && 0 <= at < |lines|
    && Some(lines[at]) == NameLine(layers[i], name, nodeWidth, rowWidth)
    && (i < |layers| - 1 ==>
          at + 1 < |lines| && Some(lines[at + 1]) == BarLine(layers[i], nodeWidth, rowWidth))
    && (i > 0 && |layers[i]| != |layers[i - 1]| ==>
          && 2 <= at
          && Some(lines[at - 2]) == SplitLine(|layers[i]|, |layers[i - 1]|, nodeWidth, rowWidth)
          && Some(lines[at - 1]) == BarLine(layers[i], nodeWidth, rowWidth))
  }

  /** The drawing loop of `render_process`: per layer its name line, a bar
      line below every layer but the last, and a separator and a bar line
      above a layer whose size differs from the previous one; then an empty
      line. `lines` is what is yielded before the first `IndexError`, and
      `ok` says whether the generator ran to its end. */
  method RenderLines<T(==)>(layers: seq<seq<T>>, name: map<T, string>, nodeWidth: int, rowWidth: int)
    returns (lines: seq<string>, ok: bool)
    requires forall i :: 0 <= i < |layers| ==> Named(layers[i], name)
    ensures nodeWidth >= 3 && rowWidth >= 3 ==> ok
    ensures nodeWidth < 3 ==> !ok && lines == []
    ensures ok ==> |lines| == if layers == [] then 1 else 2 * |layers| + 2 * SizeChanges(layers)
    ensures ok ==> forall i :: 0 <= i < |layers| ==> LayerDrawn(layers, name, nodeWidth, rowWidth, lines, i)
    ensures ok ==> lines[|lines| - 1] == ""
    ensures !ok ==> "" !in lines
  {
    lines := [];
    var vertBar := CenterText("|", nodeWidth);
    if vertBar.None? {
      return [], false;
    }
    var prevNodes := 0;
    for idx := 0 to |layers|
      invariant idx == 0 ==> prevNodes == 0
      invariant idx > 0 ==> prevNodes == |layers[idx - 1]|
      invariant |lines| == 2 * idx + 2 * SizeChanges(layers[..idx]) - (if idx == |layers| && idx > 0 then 1 else 0)
      invariant forall i :: 0 <= i < idx ==> LayerDrawn(layers, name, nodeWidth, rowWidth, lines, i)
      invariant "" !in lines
    {
      var layer := layers[idx];
      var block, blockOk := LayerLines(layer, name, nodeWidth, rowWidth, prevNodes, idx > 0, idx < |layers| - 1);
      ghost var before := lines;
      lines := lines + block;
      if !blockOk {
        return lines, false;
      }
      DrawnStep(layers, name, nodeWidth, rowWidth, before, block, idx, prevNodes);
      prevNodes := |layer|;
    }
    assert layers[..|layers|] == layers;
    forall i | 0 <= i < |layers|
      ensures LayerDrawn(layers, name, nodeWidth, rowWidth, lines + [""], i)
    {
      DrawnKept(layers, name, nodeWidth, rowWidth, lines, [""], i);
    }
    lines := lines + [""];
    ok := true;
  }

  /** One turn of the drawing loop: the lines yielded for `layer`, up to the
      first `IndexError` if there is one. `prevNodes` is the size of the layer before, `later` whether this is
      not the first layer, `more` whether another layer follows. */
  method LayerLines<T>(layer: seq<T>, name: map<T, string>, nodeWidth: int, rowWidth: int,
                       prevNodes: int, later: bool, more: bool)
    returns (block: seq<string>, ok: bool)
    requires Named(layer, name)
    ensures nodeWidth >= 3 && rowWidth >= 3 ==> ok
    ensures ok ==> |block| == (if later && prevNodes != |layer| then 2 else 0) + 1 + (if more then 1 else 0)
    ensures ok ==>
      var at := if later && prevNodes != |layer| then 2 else 0;
      && Some(block[at]) == NameLine(layer, name, nodeWidth, rowWidth)
      && (more ==> Some(block[at + 1]) == BarLine(layer, nodeWidth, rowWidth))
      && (at == 2 ==> Some(block[0]) == SplitLine(|layer|, prevNodes, nodeWidth, rowWidth)
                      && Some(block[1]) == BarLine(layer, nodeWidth, rowWidth))
    ensures "" !in block
  {
    LinesExist(layer, name, nodeWidth, rowWidth, prevNodes);
    var names := CentredRow(layer, name, nodeWidth);
    if names.None? {
      return [], false;
    }
    var head: seq<string> := [];
    if later && prevNodes != |layer| {
      var headOk;
      head, headOk := SeparatorLines(layer, prevNodes, nodeWidth, rowWidth);
      if !headOk {
        return head, false;
      }
    }
    var rest;
    rest, ok := NameLines(layer, name, nodeWidth, rowWidth, more);
    block := head + rest;
    if ok {
      assert block[|head|] == rest[0];
      if more {
        assert block[|head| + 1] == rest[1];
      }
    }
  }

  /** The separator and the bar line drawn above a layer whose size differs
      from the layer before, up to the first `IndexError`. */
  method SeparatorLines<T>(layer: seq<T>, prevNodes: int, nodeWidth: int, rowWidth: int)
    returns (head: seq<string>, ok: bool)
    ensures SplitLine(|layer|, prevNodes, nodeWidth, rowWidth).Some? && BarLine(layer, nodeWidth, rowWidth).Some? ==> ok
    ensures ok ==>
      && |head| == 2
      && Some(head[0]) == SplitLine(|layer|, prevNodes, nodeWidth, rowWidth)
      && Some(head[1]) == BarLine(layer, nodeWidth, rowWidth)
    ensures "" !in head
  {
    var splitLine := SplitLine(|layer|, prevNodes, nodeWidth, rowWidth);
    if splitLine.None? {
      return [], false;
    }
    var barLine := BarLine(layer, nodeWidth, rowWidth);
    if barLine.None? {
      return [splitLine.value], false;
    }
    return [splitLine.value, barLine.value], true;
  }

  /** The name line of a layer and, when another layer follows, its bar line,
      up to the first `IndexError`. */
  method NameLines<T>(layer: seq<T>, name: map<T, string>, nodeWidth: int, rowWidth: int, more: bool)
    returns (rest: seq<string>, ok: bool)
    requires Named(layer, name)
    ensures NameLine(layer, name, nodeWidth, rowWidth).Some? && BarLine(layer, nodeWidth, rowWidth).Some? ==> ok
    ensures ok ==>
      && |rest| == 1 + (if more then 1 else 0)
      && Some(rest[0]) == NameLine(layer, name, nodeWidth, rowWidth)
      && (more ==> Some(rest[1]) == BarLine(layer, nodeWidth, rowWidth))
    ensures "" !in rest
  {
    var nameLine := NameLine(layer, name, nodeWidth, rowWidth);
    if nameLine.None? {
      return [], false;
    }
    if !more {
      return [nameLine.value], true;
    }
    var barLine := BarLine(layer, nodeWidth, rowWidth);
    if barLine.None? {
      return [nameLine.value], false;
    }
    return [nameLine.value, barLine.value], true;
  }

  /** With both widths at least 3, every line of a layer can be drawn. */
  lemma {:induction false} LinesExist<T>(layer: seq<T>, name: map<T, string>, nodeWidth: int, rowWidth: int,
                                         prevNodes: int)
    requires Named(layer, name)
    ensures nodeWidth >= 3 && rowWidth >= 3 ==>
      && CentredRow(layer, name, nodeWidth).Some?
      && NameLine(layer, name, nodeWidth, rowWidth).Some?
      && BarLine(layer, nodeWidth, rowWidth).Some?
      && SplitLine(|layer|, prevNodes, nodeWidth, rowWidth).Some?
  {
  }

  /** A layer's block appended after the lines of the layers before it
      puts every line of the layer where `LayerDrawn` says. */
  lemma {:induction false} DrawnStep<T>(layers: seq<seq<T>>, name: map<T, string>, nodeWidth: int, rowWidth: int,
                                        lines: seq<string>, block: seq<string>, idx: int, prevNodes: int)
    requires forall i :: 0 <= i < |layers| ==> Named(layers[i], name)
    requires 0 <= idx < |layers| && (idx > 0 ==> prevNodes == |layers[idx - 1]|)
    requires |lines| == 2 * idx + 2 * SizeChanges(layers[..idx])
    requires forall i :: 0 <= i < idx ==> LayerDrawn(layers, name, nodeWidth, rowWidth, lines, i)
    requires var at := if idx > 0 && prevNodes != |layers[idx]| then 2 else 0;
      && |block| == at + 1 + (if idx < |layers| - 1 then 1 else 0)
      && Some(block[at]) == NameLine(layers[idx], name, nodeWidth, rowWidth)
      && (idx < |layers| - 1 ==> Some(block[at + 1]) == BarLine(layers[idx], nodeWidth, rowWidth))
      && (at == 2 ==> Some(block[0]) == SplitLine(|layers[idx]|, prevNodes, nodeWidth, rowWidth)
                      && Some(block[1]) == BarLine(layers[idx], nodeWidth, rowWidth))
    ensures |lines + block| == 2 * (idx + 1) + 2 * SizeChanges(layers[..idx + 1])
                               - (if idx + 1 == |layers| then 1 else 0)
    ensures forall i :: 0 <= i <= idx ==> LayerDrawn(layers, name, nodeWidth, rowWidth, lines + block, i)
  {
    SizeChangesSnoc(layers, idx);
    forall i | 0 <= i < idx
      ensures LayerDrawn(layers, name, nodeWidth, rowWidth, lines + block, i)
    {
      DrawnKept(layers, name, nodeWidth, rowWidth, lines, block, i);
    }
    var at := if idx > 0 && prevNodes != |layers[idx]| then 2 else 0;
    DrawnHere(layers, name, nodeWidth, rowWidth, lines, block, idx, at);
  }

  /** The block of layer `idx`, starting right after the lines of the layers
      before it, holds its lines where `LayerDrawn` says. */
  lemma {:induction false} DrawnHere<T>(layers: seq<seq<T>>, name: map<T, string>, nodeWidth: int, rowWidth: int,
                                        lines: seq<string>, block: seq<string>, idx: int, at: int)
    requires 0 <= idx < |layers| && Named(layers[idx], name)
    requires NameIndex(layers, idx) == |lines| + at
    requires at == (if idx > 0 && |layers[idx - 1]| != |layers[idx]| then 2 else 0)
    requires && |block| == at + 1 + (if idx < |layers| - 1 then 1 else 0)
             && Some(block[at]) == NameLine(layers[idx], name, nodeWidth, rowWidth)
             && (idx < |layers| - 1 ==> Some(block[at + 1]) == BarLine(layers[idx], nodeWidth, rowWidth))
             && (at == 2 ==> Some(block[0]) == SplitLine(|layers[idx]|, |layers[idx - 1]|, nodeWidth, rowWidth)
                             && Some(block[1]) == BarLine(layers[idx], nodeWidth, rowWidth))
    ensures LayerDrawn(layers, name, nodeWidth, rowWidth, lines + block, idx)
  {
    assert (lines + block)[|lines| + at] == block[at];
    if idx < |layers| - 1 {
      assert (lines + block)[|lines| + at + 1] == block[at + 1];
    }
    if at == 2 {
      assert (lines + block)[|lines|] == block[0];
      assert (lines + block)[|lines| + 1] == block[1];
    }
  }

  /** Lines appended later leave the lines of a drawn layer in place. */
  lemma {:induction false} DrawnKept<T>(layers: seq<seq<T>>, name: map<T, string>, nodeWidth: int, rowWidth: int,
                                        lines: seq<string>, extra: seq<string>, i: int)
    requires 0 <= i < |layers| && Named(layers[i], name)
    requires LayerDrawn(layers, name, nodeWidth, rowWidth, lines, i)
    ensures LayerDrawn(layers, name, nodeWidth, rowWidth, lines + extra, i)
  {
    var at := NameIndex(layers, i);
    assert (lines + extra)[at] == lines[at];
    if i < |layers| - 1 {
      assert (lines + extra)[at + 1] == lines[at + 1];
    }
    if i > 0 && |layers[i]| != |layers[i - 1]| {
      assert (lines + extra)[at - 2] == lines[at - 2];
      assert (lines + extra)[at - 1] == lines[at - 1];
    }
  }

  /** The size changes up to layer `i` are those before it, plus one when
      layer `i` differs in size from the layer before. */
  lemma {:induction false} SizeChangesSnoc<T>(layers: seq<seq<T>>, i: int)
    requires 0 <= i < |layers|
    ensures SizeChanges(layers[..i + 1]) ==
      SizeChanges(layers[..i]) + (if i > 0 && |layers[i]| != |layers[i - 1]| then 1 else 0)
  {
    assert layers[..i + 1][..i] == layers[..i];
  }

  function Max(a: int, b: int): int {
    if a < b then b else a
  }

  // ---------------------------------------------------------------------
  // render_process
  // ---------------------------------------------------------------------

  /** Why the rendering of a process stops early. */
  datatype RenderError =
    | CyclicGraph   // `topological_sort` raised, before any line
    | IndexError    // `center_text` indexed outside a name

  /** `raw` is `order` split into layers as `render_process` builds them and
      `layers` the layers it draws: every layer but the last stored as the
      stable sort by name of its built layer, the last as built, none
      empty, every node's predecessors in earlier layers, and the built
      layers split where the grouping rule `Greedy` says. */
  ghost predicate LayersOf<T>(order: seq<T>, incoming: map<T, set<T>>, name: map<T, string>,
                              raw: seq<seq<T>>, layers: seq<seq<T>>) {
    && Flatten(raw) == order && |raw| == |layers|
    && (forall i :: 0 <= i < |layers| - 1 ==> StoredSorted(layers[i], raw[i], name))
    && (|layers| > 0 ==> layers[|layers| - 1] == raw[|raw| - 1])
    && multiset(Flatten(layers)) == multiset(order)
    && (forall i :: 0 <= i < |layers| ==> layers[i] != [] && Named(layers[i], name))
    && PredecessorsEarlier(incoming, layers)
    && (layers == [] <==> order == [])
    && GreedyLayers(incoming, raw)
  }

  /** The layers drawn for an order are determined by it: the grouping rule
      leaves one way to split the order, and sorting is a function. */
  lemma {:induction false} LayersOfUnique<T>(order: seq<T>, incoming: map<T, set<T>>, name: map<T, string>,
                                             raw1: seq<seq<T>>, layers1: seq<seq<T>>,
                                             raw2: seq<seq<T>>, layers2: seq<seq<T>>)
    requires LayersOf(order, incoming, name, raw1, layers1)
    requires LayersOf(order, incoming, name, raw2, layers2)
    ensures raw1 == raw2 && layers1 == layers2
  {
    GreedyUnique(order, incoming, raw1, raw2);
    forall i | 0 <= i < |layers1|
      ensures layers1[i] == layers2[i]
    {
    }
  }

  /** Tasks with no dependencies are all drawn in one layer. */
  lemma {:induction false} IndependentShareLayer<T>(order: seq<T>, incoming: map<T, set<T>>, name: map<T, string>,
                                                    raw: seq<seq<T>>, layers: seq<seq<T>>)
    requires LayersOf(order, incoming, name, raw, layers) && order != []
    requires forall j :: 0 <= j < |order| ==> order[j] in incoming && incoming[order[j]] == {}
    ensures raw == [order] && |layers| == 1
  {
    var one := [order];
    assert one[..0] == [] && Flatten(one) == order;
    GreedyUnique(order, incoming, raw, one);
  }

  /** `lines` draws `layers` completely: every layer's lines where
      `LayerDrawn` puts them, then the empty line, and nothing else. */
  ghost predicate Drawing<T>(layers: seq<seq<T>>, name: map<T, string>, nodeWidth: int, rowWidth: int,
                             lines: seq<string>)
    requires forall i :: 0 <= i < |layers| ==> Named(layers[i], name)
  {
    && |lines| == (if layers == [] then 1 else 2 * |layers| + 2 * SizeChanges(layers))
    && (forall i :: 0 <= i < |layers| ==> LayerDrawn(layers, name, nodeWidth, rowWidth, lines, i))
    && lines[|lines| - 1] == ""
  }

  /** Only one list of lines draws given layers: the blocks of the layers
      follow one another with no gap, and the empty line closes them. */
  lemma {:induction false} DrawingUnique<T>(layers: seq<seq<T>>, name: map<T, string>, nodeWidth: int, rowWidth: int,
                                            lines1: seq<string>, lines2: seq<string>)
    requires forall i :: 0 <= i < |layers| ==> Named(layers[i], name)
    requires Drawing(layers, name, nodeWidth, rowWidth, lines1)
    requires Drawing(layers, name, nodeWidth, rowWidth, lines2)
    ensures lines1 == lines2
  {
    if layers != [] {
      forall i | 0 <= i < |layers|
        ensures BlockAgrees(layers, lines1, lines2, i)
      {
        SameBlock(layers, name, nodeWidth, rowWidth, lines1, lines2, i);
      }
      SizeChangesSnoc(layers, 0);
      DrawnFrom(layers, lines1, lines2, 0);
    }
    assert forall x :: 0 <= x < |lines1| - 1 ==> lines1[x] == lines2[x];
  }

  /** The lines drawn for an order are determined by it. */
  lemma {:induction false} DrawnOrderUnique<T>(order: seq<T>, incoming: map<T, set<T>>, name: map<T, string>,
                                               nodeWidth: int, rowWidth: int,
                                               raw1: seq<seq<T>>, layers1: seq<seq<T>>, lines1: seq<string>,
                                               raw2: seq<seq<T>>, layers2: seq<seq<T>>, lines2: seq<string>)
    requires LayersOf(order, incoming, name, raw1, layers1) && Drawing(layers1, name, nodeWidth, rowWidth, lines1)
    requires LayersOf(order, incoming, name, raw2, layers2) && Drawing(layers2, name, nodeWidth, rowWidth, lines2)
    ensures layers1 == layers2 && lines1 == lines2
  {
    LayersOfUnique(order, incoming, name, raw1, layers1, raw2, layers2);
    DrawingUnique(layers1, name, nodeWidth, rowWidth, lines1, lines2);
  }

  /** Where the block of layer `i` begins: its separator, if it has one,
      otherwise its name line. */
  function BlockStart<T>(layers: seq<seq<T>>, i: int): int
    requires 0 <= i < |layers|
  {
    NameIndex(layers, i) - (if i > 0 && |layers[i]| != |layers[i - 1]| then 2 else 0)
  }

  /** `lines1` and `lines2` hold the same lines where layer `i` is drawn. */
  ghost predicate BlockAgrees<T>(layers: seq<seq<T>>, lines1: seq<string>, lines2: seq<string>, i: int)
    requires 0 <= i < |layers|
  {
    var at := NameIndex(layers, i);
    && 0 <= at < |lines1| && at < |lines2| && lines1[at] == lines2[at]
    && (i < |layers| - 1 ==> at + 1 < |lines1| && at + 1 < |lines2| && lines1[at + 1] == lines2[at + 1])
    && (i > 0 && |layers[i]| != |layers[i - 1]| ==>
          2 <= at && lines1[at - 2] == lines2[at - 2] && lines1[at - 1] == lines2[at - 1])
  }

  /** Two drawings of the same layers agree on the block of layer `i`. */
  lemma {:induction false} SameBlock<T>(layers: seq<seq<T>>, name: map<T, string>, nodeWidth: int, rowWidth: int,
                                        lines1: seq<string>, lines2: seq<string>, i: int)
    requires 0 <= i < |layers| && Named(layers[i], name)
    requires LayerDrawn(layers, name, nodeWidth, rowWidth, lines1, i)
    requires LayerDrawn(layers, name, nodeWidth, rowWidth, lines2, i)
    ensures BlockAgrees(layers, lines1, lines2, i)
  {
  }

  /** Lines that agree on every layer's block agree from the block of layer
      `i` on, up to the closing empty line. */
  lemma {:induction false} DrawnFrom<T>(layers: seq<seq<T>>, lines1: seq<string>, lines2: seq<string>, i: int)
    requires |lines1| == |lines2| == 2 * |layers| + 2 * SizeChanges(layers)
    requires forall i :: 0 <= i < |layers| ==> BlockAgrees(layers, lines1, lines2, i)
    requires 0 <= i < |layers|
    ensures forall x :: BlockStart(layers, i) <= x < |lines1| - 1 ==> lines1[x] == lines2[x]
    decreases |layers| - i
  {
    var at := NameIndex(layers, i);
    assert BlockAgrees(layers, lines1, lines2, i);
    if i < |layers| - 1 {
      SizeChangesSnoc(layers, i + 1);
      DrawnFrom(layers, lines1, lines2, i + 1);
    } else {
      assert layers[..i + 1] == layers;
    }
  }

  /** The layers and lines drawn for an order whose nodes come after their
      predecessors. */
  method RenderOrder<T(==)>(order: seq<T>, incoming: map<T, set<T>>, name: map<T, string>,
                            nodeWidth: int, rowWidth: int)
    returns (lines: seq<string>, ok: bool, ghost layers: seq<seq<T>>, ghost raw: seq<seq<T>>)
    requires forall j :: 0 <= j < |order| ==> order[j] in incoming && order[j] in name
    requires PredecessorsFirst(order, incoming)
    ensures LayersOf(order, incoming, name, raw, layers)
    ensures nodeWidth >= 3 && rowWidth >= 3 ==> ok
    ensures ok ==> Drawing(layers, name, nodeWidth, rowWidth, lines)
    ensures !ok ==> "" !in lines
  {
    var shown;
    shown, raw := Layering(order, incoming, name);
    layers := shown;
    forall i, j | 0 <= i < |shown| && 0 <= j < |shown[i]|
      ensures shown[i][j] in name
    {
      InFlatten(shown, i, shown[i][j]);
      assert shown[i][j] in multiset(order);
    }
    lines, ok := RenderLines(shown, name, nodeWidth, rowWidth);
  }

  /** `render_process(process, node_width, row_width)`, with the lines it
      yields before it stops. The process is only read. `order` is the
      topological order, `raw` its layers as built, `layers` the layers
      drawn and `names` the task name of each node. */
  method RenderProcess(p: Process, nodeWidth: int, rowWidth: int)
    returns (lines: seq<string>, error: Option<RenderError>, ghost order: seq<TaskNode>,
             ghost raw: seq<seq<TaskNode>>, ghost layers: seq<seq<TaskNode>>, ghost names: map<TaskNode, string>)
    requires p.Valid()
    ensures names.Keys == p.graph.nodes
    ensures forall n :: n in names ==> n.task != null && names[n] == n.task.name
    ensures error == Some(CyclicGraph) <==> HasCycle(p.graph.outgoing)
    ensures error == Some(CyclicGraph) ==> lines == []
    ensures !HasCycle(p.graph.outgoing) && nodeWidth >= 3 && rowWidth >= 3 ==> error == None
    ensures error != Some(CyclicGraph) ==>
      && IsTopologicalOrder(p.graph.nodes, p.graph.outgoing, order)
      && LayersOf(order, p.graph.incoming, names, raw, layers)
    ensures error == None ==> Drawing(layers, names, nodeWidth, rowWidth, lines)
    ensures error == Some(IndexError) ==> "" !in lines
    ensures error == None && p.graph.nodes == {} ==> lines == [""]
  {
    order, raw, layers := [], [], [];
    var name := map n | n in p.graph.nodes :: n.task.name;
    names := name;
    var sorted := p.graph.TopologicalSort();
    if sorted.Failure? {
      return [], Some(CyclicGraph), order, raw, layers, names;
    }
    var nodes := sorted.value;
    order := nodes;
    TopologicalOrderPredecessorsFirst(p.graph.State(), order);
    var ok;
    lines, ok, layers, raw := RenderOrder(nodes, p.graph.incoming, name, nodeWidth, rowWidth);
    error := if ok then None else Some(IndexError);
    if ok && p.graph.nodes == {} {
      assert lines == [lines[0]];
    }
  }
}
