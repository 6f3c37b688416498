/**
 * `make_crumbs`: the breadcrumb trail of a record, built by following its
 * parent link upwards. Records live in a store keyed by id, so a parent
 * chain may be long or even cyclic; `max_depth` bounds the walk and
 * `root_ids` ends it early. `url_for` is a parameter of the model.
 */
module Crumbs {
  import opened Wrappers

  type RecordId = int

  /** The fields of a record that `make_crumbs` reads. */
  datatype Record = Record(uri: string, title: string, parent: Option<RecordId>)

  type Store = map<RecordId, Record>

  /** A breadcrumb: `(url, title)`. */
  datatype Crumb = Crumb(url: string, title: string)

  /** The node a reference designates, if any: `None` and a dangling id are both falsy. */
  predicate Present(store: Store, node: Option<RecordId>) {
    node.Some? && node.value in store
  }

  /** The crumb of a present node: its URL and its title. */
  function CrumbOf(store: Store, urlFor: string -> string, node: Option<RecordId>): Crumb
    requires Present(store, node)
  {
    Crumb(urlFor(store[node.value].uri), store[node.value].title)
  }

  /** The `k`-th node up the parent chain of `node` (`node` itself for 0). */
  function Ancestor(store: Store, node: Option<RecordId>, k: nat): Option<RecordId>
    decreases k
  {
    if k == 0 then node
    else if !Present(store, node) then None
    else Ancestor(store, store[node.value].parent, k - 1)
  }

  /** The walk ends at this node: it is one of `root_ids`. */
  predicate IsRoot(node: Option<RecordId>, rootIds: set<RecordId>) {
    node.Some? && node.value in rootIds
  }

  /** How many crumbs a walk that starts at `level` may still produce. */
  function Budget(level: int, maxDepth: int): nat {
    if level > maxDepth then 0 else maxDepth - level + 1
  }

  /**
   * A walk from `node` that produced `n` crumbs had a reason to stop there:
   * the budget was spent, the next node is missing, or the last one was a root.
   */
  predicate Stopped(store: Store, node: Option<RecordId>, n: nat, budget: nat, rootIds: set<RecordId>) {
    n == budget ||
    !Present(store, Ancestor(store, node, n)) ||
    (n > 0 && IsRoot(Ancestor(store, node, n - 1), rootIds))
  }

  /**
   * The inner `recurse(node, level)` of `make_crumbs`: never more crumbs
   * than the depth budget left at `level`, and, when there is any, the
   * first one is the crumb of `node` itself.
   */
  function Recurse(store: Store, urlFor: string -> string, maxDepth: int, rootIds: set<RecordId>,
                   node: Option<RecordId>, level: int): (r: seq<Crumb>)
    ensures |r| <= Budget(level, maxDepth)
    ensures r != [] ==> Present(store, node) && r[0] == CrumbOf(store, urlFor, node)
    decreases Budget(level, maxDepth)
  {
    if level > maxDepth || !Present(store, node) then []
    else if node.value in rootIds then [CrumbOf(store, urlFor, node)]
    else [CrumbOf(store, urlFor, node)] + Recurse(store, urlFor, maxDepth, rootIds, store[node.value].parent, level + 1)
  }

  /**
   * `r` is the crumb list of a walk up from `node` with `budget` steps: the
   * crumbs of `node` and its ancestors, nearest first, passing no root, and
   * stopped after the first root, at a missing node, or when the budget is
   * spent, and at no earlier point.
   */
  predicate WalksChain(store: Store, urlFor: string -> string, rootIds: set<RecordId>,
                       node: Option<RecordId>, budget: nat, r: seq<Crumb>)
  {
    |r| <= budget &&
    (forall i :: 0 <= i < |r| ==>
       Present(store, Ancestor(store, node, i)) && r[i] == CrumbOf(store, urlFor, Ancestor(store, node, i))) &&
    (forall i :: 0 <= i < |r| - 1 ==> !IsRoot(Ancestor(store, node, i), rootIds)) &&
    Stopped(store, node, |r|, budget, rootIds)
  }

  /** `recurse` walks the parent chain, within the depth budget still left at `level`. */
  lemma {:induction false} RecurseWalksChain(store: Store, urlFor: string -> string, maxDepth: int,
                                             rootIds: set<RecordId>, node: Option<RecordId>, level: int)
    ensures WalksChain(store, urlFor, rootIds, node, Budget(level, maxDepth),
                       Recurse(store, urlFor, maxDepth, rootIds, node, level))
    decreases Budget(level, maxDepth)
  {
    var r := Recurse(store, urlFor, maxDepth, rootIds, node, level);
    var budget := Budget(level, maxDepth);
    if level <= maxDepth && Present(store, node) && node.value !in rootIds {
      var parent := store[node.value].parent;
      var rest := Recurse(store, urlFor, maxDepth, rootIds, parent, level + 1);
      RecurseWalksChain(store, urlFor, maxDepth, rootIds, parent, level + 1);
      assert r == [CrumbOf(store, urlFor, node)] + rest;
      assert Budget(level + 1, maxDepth) == budget - 1;
      forall i | 1 <= i <= |r| ensures Ancestor(store, node, i) == Ancestor(store, parent, i - 1) {
      }
      forall i | 0 <= i < |r|
        ensures Present(store, Ancestor(store, node, i)) && r[i] == CrumbOf(store, urlFor, Ancestor(store, node, i))
      {
        if i > 0 {
          assert r[i] == rest[i - 1];
        }
      }
      forall i | 0 <= i < |r| - 1 ensures !IsRoot(Ancestor(store, node, i), rootIds) {
      }
      assert Stopped(store, parent, |rest|, budget - 1, rootIds);
      assert Stopped(store, node, |r|, budget, rootIds);
    } else if level <= maxDepth && Present(store, node) {
      assert r == [CrumbOf(store, urlFor, node)];
      assert Stopped(store, node, |r|, budget, rootIds);
    }
  }

  /** The list reversed, as `list.reverse()` leaves it. */
  function Reversed<T>(s: seq<T>): (r: seq<T>)
    ensures |r| == |s|
    ensures forall k :: 0 <= k < |s| ==> r[k] == s[|s| - 1 - k]
  {
    if s == [] then [] else Reversed(s[1..]) + [s[0]]
  }

  function HomeCount(addHome: bool): nat { if addHome then 1 else 0 }

  /** What `make_crumbs` appends to the walk before reversing it. */
  function HomeTail(addHome: bool, homeUrl: string): (r: seq<Crumb>)
    ensures |r| == HomeCount(addHome)
  {
    if addHome then [Crumb(homeUrl, "Home")] else []
  }

  /**
   * `make_crumbs`: the crumbs of the parent chain, root-most first and the
   * starting record last, preceded by Home when `addHome` is set. Counted
   * from the end, crumb `i` is the `i`-th ancestor of the start; the walk
   * stops exactly as `RecurseWalksChain` says.
   */
  method MakeCrumbs(store: Store, start: Option<RecordId>, urlFor: string -> string, homeUrl: string,
                    addHome: bool := true, maxDepth: int := 10, rootIds: set<RecordId> := {})
    returns (items: seq<Crumb>)
    ensures |items| >= HomeCount(addHome)
    ensures |items| - HomeCount(addHome) <= Budget(1, maxDepth)
    ensures addHome ==> items[0] == Crumb(homeUrl, "Home")
    ensures forall i :: 0 <= i < |items| - HomeCount(addHome) ==>
      Present(store, Ancestor(store, start, i)) &&
      items[|items| - 1 - i] == CrumbOf(store, urlFor, Ancestor(store, start, i))
    ensures forall i :: 0 <= i < |items| - HomeCount(addHome) - 1 ==>
      !IsRoot(Ancestor(store, start, i), rootIds)
    ensures Stopped(store, start, |items| - HomeCount(addHome), Budget(1, maxDepth), rootIds)
  {
    items := Recurse(store, urlFor, maxDepth, rootIds, start, 1);
    RecurseWalksChain(store, urlFor, maxDepth, rootIds, start, 1);
    ghost var walk := items;
    if addHome {
      items := items + [Crumb(homeUrl, "Home")];
    }
    assert items == walk + HomeTail(addHome, homeUrl);
    items := Reversed(items);
    CrumbsOfWalk(store, start, urlFor, homeUrl, addHome, maxDepth, rootIds, walk, items);
    CrumbsFollowChain(store, start, urlFor, homeUrl, addHome, maxDepth, rootIds, walk, items);
    CrumbsPassNoRoot(store, start, urlFor, homeUrl, addHome, maxDepth, rootIds, walk, items);
  }

  /** How many crumbs `MakeCrumbs` returns, where Home is, and why the walk stopped. */
  lemma CrumbsOfWalk(store: Store, start: Option<RecordId>, urlFor: string -> string, homeUrl: string,
                     addHome: bool, maxDepth: int, rootIds: set<RecordId>, walk: seq<Crumb>, items: seq<Crumb>)
    requires WalksChain(store, urlFor, rootIds, start, Budget(1, maxDepth), walk)
    requires items == Reversed(walk + HomeTail(addHome, homeUrl))
    ensures |items| >= HomeCount(addHome)
    ensures |items| - HomeCount(addHome) <= Budget(1, maxDepth)
    ensures addHome ==> items[0] == Crumb(homeUrl, "Home")
    ensures Stopped(store, start, |items| - HomeCount(addHome), Budget(1, maxDepth), rootIds)
  {
    ReversedKeepsTrail(walk, HomeTail(addHome, homeUrl));
    assert |items| - HomeCount(addHome) == |walk|;
  }

  /** Counted from the end, the crumbs `MakeCrumbs` returns are those of the parent chain. */
  lemma CrumbsFollowChain(store: Store, start: Option<RecordId>, urlFor: string -> string, homeUrl: string,
                          addHome: bool, maxDepth: int, rootIds: set<RecordId>, walk: seq<Crumb>, items: seq<Crumb>)
    requires WalksChain(store, urlFor, rootIds, start, Budget(1, maxDepth), walk)
    requires items == Reversed(walk + HomeTail(addHome, homeUrl))
    ensures forall i :: 0 <= i < |items| - HomeCount(addHome) ==>
      Present(store, Ancestor(store, start, i)) &&
      items[|items| - 1 - i] == CrumbOf(store, urlFor, Ancestor(store, start, i))
  {
    ReversedKeepsTrail(walk, HomeTail(addHome, homeUrl));
    var n := |walk|;
    assert |items| - HomeCount(addHome) == n;
    forall i | 0 <= i < n
      ensures Present(store, Ancestor(store, start, i)) &&
              items[|items| - 1 - i] == CrumbOf(store, urlFor, Ancestor(store, start, i))
    {
      assert Present(store, Ancestor(store, start, i)) && walk[i] == CrumbOf(store, urlFor, Ancestor(store, start, i));
      assert items[|items| - 1 - i] == walk[i];
    }
  }

  /** No crumb of `MakeCrumbs` before the root-most one belongs to a root. */
  lemma CrumbsPassNoRoot(store: Store, start: Option<RecordId>, urlFor: string -> string, homeUrl: string,
                         addHome: bool, maxDepth: int, rootIds: set<RecordId>, walk: seq<Crumb>, items: seq<Crumb>)
    requires WalksChain(store, urlFor, rootIds, start, Budget(1, maxDepth), walk)
    requires items == Reversed(walk + HomeTail(addHome, homeUrl))
    ensures forall i :: 0 <= i < |items| - HomeCount(addHome) - 1 ==>
      !IsRoot(Ancestor(store, start, i), rootIds)
  {
    assert |items| - HomeCount(addHome) == |walk|;
  }

  /**
   * Reversing a walk followed by a tail puts the tail's last element first
   * and, counted from the end, the walk's elements in their old places.
   */
  lemma ReversedKeepsTrail<T>(walk: seq<T>, tail: seq<T>)
    ensures var r := Reversed(walk + tail);
      |r| == |walk| + |tail| &&
      (forall i :: 0 <= i < |walk| ==> r[|r| - 1 - i] == walk[i]) &&
      (|tail| > 0 ==> r[0] == tail[|tail| - 1])
  {
    var r := Reversed(walk + tail);
    forall i | 0 <= i < |walk|
      ensures r[|r| - 1 - i] == walk[i]
    {
      assert r[|r| - 1 - i] == (walk + tail)[i];
    }
  }

  /** With Home and a present start record, Home comes first and the start record's crumb last. */
  lemma HomeFirstStartLast(store: Store, start: Option<RecordId>, urlFor: string -> string, homeUrl: string,
                           maxDepth: int, rootIds: set<RecordId>)
    requires Present(store, start) && maxDepth >= 1
    ensures var items := Reversed(Recurse(store, urlFor, maxDepth, rootIds, start, 1) + [Crumb(homeUrl, "Home")]);
      |items| >= 2 && items[0] == Crumb(homeUrl, "Home") && items[|items| - 1] == CrumbOf(store, urlFor, start)
  {
  }
}
