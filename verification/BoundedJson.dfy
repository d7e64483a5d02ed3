// The bound on nested worker payloads (backend/app/worker_api.py): a walk with
// an explicit stack against a recursive definition.
module BoundedJson {
  import opened Common

  // An object is given by its values, one for each key.
  datatype Json = Scalar(text: string) | Array(items: seq<Json>) | Object(values: seq<Json>)

  datatype Verdict = Accepted | TooDeep | TooMany

  datatype Entry = Entry(node: Json, depth: nat)

  const MAX_DEPTH: nat := 10
  const MAX_ITEMS: nat := 10_000

  function Children(j: Json): (children: seq<Json>)
    ensures forall i | 0 <= i < |children| :: children[i] < j
  {
    match j
    case Scalar(_) => []
    case Array(items) => items
    case Object(values) => values
  }

  // ----- the recursive definition -----

  // The number of values contained in j at any level.
  function Items(j: Json): nat
    decreases j, |Children(j)| + 1
  {
    |Children(j)| + ItemsBelow(j, |Children(j)|)
  }

  function ItemsBelow(j: Json, n: nat): nat
    requires n <= |Children(j)|
    decreases j, n
  {
    if n == 0 then 0 else ItemsBelow(j, n - 1) + Items(Children(j)[n - 1])
  }

  // The number of levels below j.
  function Depth(j: Json): nat
    decreases j, |Children(j)| + 1
  {
    DepthBelow(j, |Children(j)|)
  }

  function DepthBelow(j: Json, n: nat): nat
    requires n <= |Children(j)|
    decreases j, n
  {
    if n == 0 then 0 else Max(DepthBelow(j, n - 1), 1 + Depth(Children(j)[n - 1]))
  }

  predicate Bounded(j: Json) {
    Depth(j) <= MAX_DEPTH && Items(j) <= MAX_ITEMS
  }

  // ----- what depth and size are -----

  // The value at the end of a path of child positions.
  ghost function At(j: Json, path: seq<nat>): Option<Json>
    decreases |path|
  {
    if path == [] then Some(j)
    else if path[0] < |Children(j)| then At(Children(j)[path[0]], path[1..])
    else None
  }

  ghost predicate IsPath(j: Json, path: seq<nat>) {
    At(j, path).Some?
  }

  lemma {:induction false} PathsAreShort(j: Json, path: seq<nat>)
    requires IsPath(j, path)
    ensures |path| <= Depth(j)
    decreases |path|
  {
    if path != [] {
      PathsAreShort(Children(j)[path[0]], path[1..]);
      DepthBelowIs(j, |Children(j)|, Depth(j));
    }
  }

  lemma {:induction false} DeepestBelow(j: Json, n: nat) returns (path: seq<nat>)
    requires n <= |Children(j)|
    ensures IsPath(j, path) && |path| == DepthBelow(j, n)
    decreases j, n
  {
    if n == 0 {
      path := [];
    } else {
      path := DeepestBelow(j, n - 1);
      if |path| < 1 + Depth(Children(j)[n - 1]) {
        var rest := DeepestBelow(Children(j)[n - 1], |Children(Children(j)[n - 1])|);
        path := [n - 1] + rest;
      }
    }
  }

  // The depth of a value is the length of the longest path into it.
  lemma DepthIsLongestPath(j: Json, bound: nat)
    ensures Depth(j) <= bound <==> forall path | IsPath(j, path) :: |path| <= bound
  {
    var path := DeepestBelow(j, |Children(j)|);
    forall p | IsPath(j, p) ensures |p| <= Depth(j) {
      PathsAreShort(j, p);
    }
  }

  ghost predicate IsPathBelow(j: Json, path: seq<nat>, n: nat) {
    path != [] && path[0] < n && IsPath(j, path)
  }

  function Prefixed(i: nat, paths: set<seq<nat>>): set<seq<nat>> {
    set p | p in paths :: [i] + p
  }

  lemma PrefixedCount(i: nat, paths: set<seq<nat>>)
    ensures |Prefixed(i, paths)| == |paths|
    decreases |paths|
  {
    if p :| p in paths {
      PrefixedCount(i, paths - {p});
      assert forall q | q in paths :: ([i] + q)[1..] == q;
      assert [i] + p !in Prefixed(i, paths - {p});
      assert Prefixed(i, paths) == Prefixed(i, paths - {p}) + {[i] + p};
    }
  }

  ghost predicate ArePathsBelow(j: Json, n: nat, paths: set<seq<nat>>) {
    forall p :: p in paths <==> IsPathBelow(j, p, n)
  }

  ghost predicate ArePaths(j: Json, paths: set<seq<nat>>) {
    forall p :: p in paths <==> p != [] && IsPath(j, p)
  }

  lemma PathsOfLast(j: Json, i: nat, below: set<seq<nat>>, p: seq<nat>)
    requires i < |Children(j)| && ArePaths(Children(j)[i], below)
    ensures p in Prefixed(i, below + {[]}) <==> IsPathBelow(j, p, i + 1) && p[0] == i
  {
    if p != [] && p[0] == i {
      assert p == [i] + p[1..];
      assert IsPath(j, p) <==> IsPath(Children(j)[i], p[1..]);
    }
  }

  lemma PathsOfOneMore(j: Json, i: nat, before: set<seq<nat>>, below: set<seq<nat>>)
    requires i < |Children(j)| && ArePathsBelow(j, i, before) && ArePaths(Children(j)[i], below)
    ensures ArePathsBelow(j, i + 1, before + Prefixed(i, below + {[]}))
    ensures |before + Prefixed(i, below + {[]})| == |before| + |below| + 1
  {
    var last := Prefixed(i, below + {[]});
    forall p ensures p in last <==> IsPathBelow(j, p, i + 1) && p[0] == i {
      PathsOfLast(j, i, below, p);
    }
    assert before !! last;
    assert [] !in below;
    PrefixedCount(i, below + {[]});
  }

  lemma {:induction false} PathsBelow(j: Json, n: nat) returns (paths: set<seq<nat>>)
    requires n <= |Children(j)|
    ensures ArePathsBelow(j, n, paths) && |paths| == n + ItemsBelow(j, n)
    decreases j, n
  {
    if n == 0 {
      paths := {};
    } else {
      var child := Children(j)[n - 1];
      var before := PathsBelow(j, n - 1);
      var below := PathsBelow(child, |Children(child)|);
      BelowAll(child, below);
      PathsOfOneMore(j, n - 1, before, below);
      paths := before + Prefixed(n - 1, below + {[]});
    }
  }

  lemma BelowAll(j: Json, paths: set<seq<nat>>)
    requires ArePathsBelow(j, |Children(j)|, paths)
    ensures ArePaths(j, paths)
  {
    forall p ensures p in paths <==> p != [] && IsPath(j, p) {
      assert p in paths <==> IsPathBelow(j, p, |Children(j)|);
    }
  }

  // The size of a value is the number of paths into it, so each value inside it
  // counts once.
  lemma ItemsArePaths(j: Json) returns (paths: set<seq<nat>>)
    ensures ArePaths(j, paths) && |paths| == Items(j)
  {
    paths := PathsBelow(j, |Children(j)|);
    BelowAll(j, paths);
  }

  // ----- the stack -----

  function Pending(stack: seq<Entry>): nat {
    if stack == [] then 0 else Pending(stack[..|stack| - 1]) + Items(stack[|stack| - 1].node)
  }

  function Entries(children: seq<Json>, depth: nat): (entries: seq<Entry>)
    ensures |entries| == |children|
    ensures forall i | 0 <= i < |children| :: entries[i] == Entry(children[i], depth)
  {
    seq(|children|, i requires 0 <= i < |children| => Entry(children[i], depth))
  }

  predicate Shallow(e: Entry) {
    e.depth + Depth(e.node) <= MAX_DEPTH
  }

  ghost predicate AllShallow(stack: seq<Entry>) {
    forall i | 0 <= i < |stack| :: Shallow(stack[i])
  }

  lemma {:induction false} PendingJoins(s: seq<Entry>, t: seq<Entry>)
    ensures Pending(s + t) == Pending(s) + Pending(t)
  {
    if t == [] {
      assert s + t == s;
    } else {
      assert (s + t)[..|s + t| - 1] == s + t[..|t| - 1];
      PendingJoins(s, t[..|t| - 1]);
    }
  }

  lemma {:induction false} PendingOfChildren(j: Json, depth: nat, n: nat)
    requires n <= |Children(j)|
    ensures Pending(Entries(Children(j), depth)[..n]) == ItemsBelow(j, n)
  {
    if n > 0 {
      PendingOfChildren(j, depth, n - 1);
      assert Entries(Children(j), depth)[..n][..n - 1] == Entries(Children(j), depth)[..n - 1];
    }
  }

  lemma {:induction false} DepthBelowIs(j: Json, n: nat, bound: nat)
    requires n <= |Children(j)|
    ensures DepthBelow(j, n) <= bound <==> forall i | 0 <= i < n :: 1 + Depth(Children(j)[i]) <= bound
  {
    if n > 0 {
      DepthBelowIs(j, n - 1, bound);
    }
  }

  // What is left of the stack without entry i.
  function Rest(stack: seq<Entry>, i: nat): seq<Entry>
    requires i < |stack|
  {
    stack[..i] + stack[i + 1..]
  }

  lemma PendingOne(e: Entry)
    ensures Pending([e]) == Items(e.node)
  {
    assert [e][..0] == [];
  }

  lemma PendingAround(a: seq<Entry>, e: seq<Entry>, b: seq<Entry>)
    ensures Pending(a + e + b) == Pending(a + b) + Pending(e)
  {
    PendingJoins(a + e, b);
    PendingJoins(a, e);
    PendingJoins(a, b);
  }

  lemma SplitAt(stack: seq<Entry>, i: nat)
    requires i < |stack|
    ensures stack == stack[..i] + [stack[i]] + stack[i + 1..]
  {
  }

  lemma PendingWithout(stack: seq<Entry>, i: nat)
    requires i < |stack|
    ensures Pending(stack) == Pending(Rest(stack, i)) + Items(stack[i].node)
  {
    var a, e, b := stack[..i], [stack[i]], stack[i + 1..];
    calc {
      Pending(stack);
      { SplitAt(stack, i); }
      Pending(a + e + b);
      { PendingAround(a, e, b); }
      Pending(a + b) + Pending(e);
      { PendingOne(stack[i]); }
      Pending(a + b) + Items(stack[i].node);
    }
  }

  lemma PendingOfAll(j: Json, depth: nat)
    ensures Pending(Entries(Children(j), depth)) + |Children(j)| == Items(j)
  {
    var below := Entries(Children(j), depth);
    PendingOfChildren(j, depth, |below|);
    assert below[..|below|] == below;
  }

  // Replacing an entry by its children moves their number from the pending
  // items to the counted ones.
  lemma ExpandKeepsCount(stack: seq<Entry>, i: nat)
    requires i < |stack|
    ensures var e := stack[i];
      Pending(Rest(stack, i) + Entries(Children(e.node), e.depth + 1)) + |Children(e.node)| == Pending(stack)
  {
    PendingWithout(stack, i);
    PendingJoins(Rest(stack, i), Entries(Children(stack[i].node), stack[i].depth + 1));
    PendingOfAll(stack[i].node, stack[i].depth + 1);
  }

  lemma ShallowEntry(e: Entry)
    requires e.depth <= MAX_DEPTH
    ensures Shallow(e) <==> AllShallow(Entries(Children(e.node), e.depth + 1))
  {
    var n, below := |Children(e.node)|, Entries(Children(e.node), e.depth + 1);
    DepthBelowIs(e.node, n, MAX_DEPTH - e.depth);
    assert forall i | 0 <= i < n :: Shallow(below[i]) <==> 1 + Depth(Children(e.node)[i]) <= MAX_DEPTH - e.depth;
    if forall i | 0 <= i < n :: 1 + Depth(Children(e.node)[i]) <= MAX_DEPTH - e.depth {
      assert AllShallow(below);
    }
  }

  lemma AllShallowJoins(s: seq<Entry>, t: seq<Entry>)
    ensures AllShallow(s + t) <==> AllShallow(s) && AllShallow(t)
  {
    if AllShallow(s + t) {
      assert forall i | 0 <= i < |s| :: s[i] == (s + t)[i];
      assert forall i | 0 <= i < |t| :: t[i] == (s + t)[|s| + i];
    }
  }

  lemma ExpandKeepsShallow(stack: seq<Entry>, i: nat)
    requires i < |stack| && stack[i].depth <= MAX_DEPTH
    ensures AllShallow(stack)
       <==> AllShallow(Rest(stack, i) + Entries(Children(stack[i].node), stack[i].depth + 1))
  {
    var e := stack[i];
    assert stack == stack[..i] + [e] + stack[i + 1..];
    AllShallowJoins(stack[..i] + [e], stack[i + 1..]);
    AllShallowJoins(stack[..i], [e]);
    AllShallowJoins(stack[..i], stack[i + 1..]);
    AllShallowJoins(Rest(stack, i), Entries(Children(e.node), e.depth + 1));
    ShallowEntry(e);
    assert AllShallow([e]) <==> Shallow([e][0]);
  }

  // The walk accepts exactly the bounded values, whichever entry `pick` takes
  // next; popping the last one is pick(n) == n - 1.
  method ValidateBoundedJson(value: Json, pick: nat -> nat) returns (verdict: Verdict)
    requires forall n: nat | n > 0 :: pick(n) < n
    ensures verdict == Accepted <==> Bounded(value)
    ensures verdict == TooDeep ==> Depth(value) > MAX_DEPTH
    ensures verdict == TooMany ==> Items(value) > MAX_ITEMS
  {
    var stack, count := [Entry(value, 0)], 0;
    assert stack[..0] == [];
    while stack != []
      invariant count <= MAX_ITEMS
      invariant count + Pending(stack) == Items(value)
      invariant AllShallow(stack) <==> Depth(value) <= MAX_DEPTH
      decreases Pending(stack) + |stack|
    {
      var i := pick(|stack|);
      var current := stack[i];
      if current.depth > MAX_DEPTH {
        assert !Shallow(stack[i]);
        return TooDeep;
      }
      ExpandKeepsCount(stack, i);
      ExpandKeepsShallow(stack, i);
      var children := Children(current.node);
      count := count + |children|;
      stack := stack[..i] + stack[i + 1..] + Entries(children, current.depth + 1);
      if count > MAX_ITEMS {
        return TooMany;
      }
    }
    verdict := Accepted;
  }
}
