/** Dependencies between the messages of a proto file: breaking cycles while the file is
    parsed, and putting the messages in order for the generated header. */
module Dependencies {
  type Name = string

  /** A message with the type names its statically allocated fields refer to. */
  datatype Message = Message(name: Name, deps: seq<Name>)

  ghost predicate Defined(ms: seq<Message>, n: Name) {
    exists j :: 0 <= j < |ms| && ms[j].name == n
  }

  ghost predicate Distinct(ms: seq<Message>) {
    forall i, j :: 0 <= i < j < |ms| ==> ms[i].name != ms[j].name
  }

  // ------------------------------------------------------------------
  // Acyclic graphs and paths
  // ------------------------------------------------------------------

  /** Every message ranks above the messages it depends on. */
  ghost predicate Ranked(ms: seq<Message>, rank: Name -> nat) {
    forall i, n :: 0 <= i < |ms| && n in ms[i].deps && Defined(ms, n) ==> rank(n) < rank(ms[i].name)
  }

  ghost predicate Acyclic(ms: seq<Message>) {
    exists rank: Name -> nat :: Ranked(ms, rank)
  }

  /** `i` is the message called `n` and depends on `n'`. */
  ghost predicate Edge(ms: seq<Message>, n: Name, n': Name) {
    exists i :: 0 <= i < |ms| && ms[i].name == n && n' in ms[i].deps
  }

  ghost predicate Path(ms: seq<Message>, p: seq<Name>) {
    forall k :: 0 <= k < |p| - 1 ==> Edge(ms, p[k], p[k + 1])
  }

  /** A path leads from one of `deps` to `root`. */
  ghost predicate PathTo(ms: seq<Message>, deps: seq<Name>, root: Name, p: seq<Name>) {
    p != [] && p[0] in deps && p[|p| - 1] == root && Path(ms, p)
  }

  ghost predicate Reaches(ms: seq<Message>, deps: seq<Name>, root: Name) {
    exists p :: PathTo(ms, deps, root, p)
  }

  lemma {:induction false} ReachDirect(ms: seq<Message>, deps: seq<Name>, root: Name)
    requires root in deps
    ensures Reaches(ms, deps, root)
  {
    assert PathTo(ms, deps, root, [root]);
  }

  lemma {:induction false} ReachVia(ms: seq<Message>, deps: seq<Name>, i: nat, root: Name)
    requires i < |ms| && ms[i].name in deps && Reaches(ms, ms[i].deps, root)
    ensures Reaches(ms, deps, root)
  {
    var p :| PathTo(ms, ms[i].deps, root, p);
    var q := [ms[i].name] + p;
    forall k | 0 <= k < |q| - 1 ensures Edge(ms, q[k], q[k + 1]) {
      if k > 0 {
        assert Edge(ms, p[k - 1], p[k]);
      }
    }
    assert PathTo(ms, deps, root, q);
  }

  /** A path ends at once, or goes through a message that reaches the root itself. */
  lemma {:induction false} ReachSplit(ms: seq<Message>, deps: seq<Name>, root: Name) returns (n: Name, i: int)
    requires Reaches(ms, deps, root)
    ensures n in deps
    ensures n == root || (0 <= i < |ms| && ms[i].name == n && Reaches(ms, ms[i].deps, root))
  {
    var p :| PathTo(ms, deps, root, p);
    n, i := p[0], -1;
    if |p| > 1 {
      assert Edge(ms, p[0], p[1]);
      i :| 0 <= i < |ms| && ms[i].name == p[0] && p[1] in ms[i].deps;
      var q := p[1..];
      forall k | 0 <= k < |q| - 1 ensures Edge(ms, q[k], q[k + 1]) {
        assert Edge(ms, p[k + 1], p[k + 2]);
      }
      assert PathTo(ms, ms[i].deps, root, q);
    }
  }

  // ------------------------------------------------------------------
  // check_recursive_dependencies
  // ------------------------------------------------------------------

  /** `all_messages[n]`, or -1. */
  method Lookup(ms: seq<Message>, n: Name) returns (i: int)
    ensures -1 <= i < |ms|
    ensures i >= 0 ==> ms[i].name == n
    ensures i < 0 ==> !Defined(ms, n)
  {
    i := 0;
    while i < |ms|
      invariant 0 <= i <= |ms| && forall j :: 0 <= j < i ==> ms[j].name != n
    {
      if ms[i].name == n {
        return;
      }
      i := i + 1;
    }
    i := -1;
  }

  /** The recursion over a message's dependencies. It keeps no record of what it has visited,
      and ends because the messages already there have no cycle. */
  method DependsOn(ms: seq<Message>, deps: seq<Name>, root: Name, ghost rank: Name -> nat, ghost bound: nat) returns (r: bool)
    requires Distinct(ms) && Ranked(ms, rank)
    requires forall n :: n in deps && Defined(ms, n) ==> rank(n) < bound
    ensures r <==> Reaches(ms, deps, root)
    decreases bound
  {
    var k := 0;
    while k < |deps|
      invariant 0 <= k <= |deps|
      invariant forall j :: 0 <= j < k ==> deps[j] != root
      invariant forall j, i :: 0 <= j < k && 0 <= i < |ms| && ms[i].name == deps[j] ==> !Reaches(ms, ms[i].deps, root)
    {
      if deps[k] == root {
        ReachDirect(ms, deps, root);
        return true;
      }
      var i := Lookup(ms, deps[k]);
      if i >= 0 {
        var found := DependsOn(ms, ms[i].deps, root, rank, rank(deps[k]));
        if found {
          ReachVia(ms, deps, i, root);
          return true;
        }
      }
      k := k + 1;
    }
    if Reaches(ms, deps, root) {
      var n, i := ReachSplit(ms, deps, root);
    }
    return false;
  }

  ghost function RankBound(ms: seq<Message>, rank: Name -> nat): (b: nat)
    ensures forall i :: 0 <= i < |ms| ==> rank(ms[i].name) < b
  {
    if ms == [] then 0
    else
      var b := RankBound(ms[..|ms| - 1], rank);
      var r := rank(ms[|ms| - 1].name);
      if r < b then b else r + 1
  }

  /** `check_recursive_dependencies` of a message not yet in the list: whether it depends on
      itself through the messages that are. */
  method CheckRecursive(m: Message, ms: seq<Message>) returns (r: bool)
    requires Distinct(ms) && Acyclic(ms)
    ensures r <==> Reaches(ms, m.deps, m.name)
  {
    ghost var rank: Name -> nat :| Ranked(ms, rank);
    r := DependsOn(ms, m.deps, m.name, rank, RankBound(ms, rank));
  }

  // ------------------------------------------------------------------
  // Adding a message
  // ------------------------------------------------------------------

  lemma {:induction false} RankFalls(ms: seq<Message>, rank: Name -> nat, p: seq<Name>)
    requires Ranked(ms, rank) && Path(ms, p) && p != []
    requires forall k :: 0 <= k < |p| ==> Defined(ms, p[k])
    ensures rank(p[|p| - 1]) <= rank(p[0])
  {
    if |p| > 1 {
      assert Edge(ms, p[0], p[1]);
      forall k | 0 <= k < |p[1..]| - 1 ensures Edge(ms, p[1..][k], p[1..][k + 1]) {
        assert Edge(ms, p[k + 1], p[k + 2]);
      }
      RankFalls(ms, rank, p[1..]);
    }
  }

  /** A message that reaches itself makes a cycle. */
  lemma {:induction false} SelfReachIsCycle(ms: seq<Message>, m: Message)
    requires Reaches(ms, m.deps, m.name)
    ensures !Acyclic(ms + [m])
  {
    var all := ms + [m];
    var p :| PathTo(ms, m.deps, m.name, p);
    assert all[|ms|] == m;
    forall k | 0 <= k < |p| - 1 ensures Edge(all, p[k], p[k + 1]) && Defined(all, p[k]) {
      assert Edge(ms, p[k], p[k + 1]);
      var i :| 0 <= i < |ms| && ms[i].name == p[k] && p[k + 1] in ms[i].deps;
      assert all[i] == ms[i];
    }
    assert Defined(all, p[|p| - 1]);
    if Acyclic(all) {
      var rank: Name -> nat :| Ranked(all, rank);
      RankFalls(all, rank, p);
    }
  }

  /** Ranks after adding `m`: it goes above all there were, and what depends on it above it. */
  ghost function Raised(ms: seq<Message>, m: Message, rank: Name -> nat, bound: nat): Name -> nat {
    (n: Name) =>
      if n == m.name then bound
      else if Above(ms, n, m.name) then bound + 1 + rank(n)
      else rank(n)
  }

  /** The message called `n` depends on `root`, directly or not. */
  ghost predicate Above(ms: seq<Message>, n: Name, root: Name) {
    exists i :: 0 <= i < |ms| && ms[i].name == n && Reaches(ms, ms[i].deps, root)
  }

  lemma {:induction false} AddKeepsAcyclic(ms: seq<Message>, m: Message)
    requires Distinct(ms) && Acyclic(ms) && !Defined(ms, m.name) && !Reaches(ms, m.deps, m.name)
    ensures Acyclic(ms + [m])
  {
    var all := ms + [m];
    var rank: Name -> nat :| Ranked(ms, rank);
    var bound := RankBound(ms, rank);
    var raised := Raised(ms, m, rank, bound);
    forall i, n | 0 <= i < |all| && n in all[i].deps && Defined(all, n) ensures raised(n) < raised(all[i].name) {
      var j :| 0 <= j < |all| && all[j].name == n;
      if n == m.name && i < |ms| {
        ReachDirect(ms, ms[i].deps, m.name);
        assert Above(ms, ms[i].name, m.name);
      } else if n == m.name {
        ReachDirect(ms, m.deps, m.name);
      } else {
        assert ms[j].name == n && Defined(ms, n);
        if i < |ms| {
          RaisedOld(ms, m, rank, bound, i, j);
        } else {
          if Above(ms, n, m.name) {
            var k :| 0 <= k < |ms| && ms[k].name == n && Reaches(ms, ms[k].deps, m.name);
            ReachVia(ms, m.deps, k, m.name);
          }
        }
      }
    }
    assert Ranked(all, raised);
  }

  /** An edge between two old messages. */
  lemma {:induction false} RaisedOld(ms: seq<Message>, m: Message, rank: Name -> nat, bound: nat, i: nat, j: nat)
    requires Distinct(ms) && Ranked(ms, rank) && !Defined(ms, m.name) && bound == RankBound(ms, rank)
    requires i < |ms| && j < |ms| && ms[j].name in ms[i].deps
    ensures Raised(ms, m, rank, bound)(ms[j].name) < Raised(ms, m, rank, bound)(ms[i].name)
  {
    assert Defined(ms, ms[j].name) && Defined(ms, ms[i].name);
    assert rank(ms[j].name) < rank(ms[i].name) < bound;
    if Above(ms, ms[j].name, m.name) {
      var k :| 0 <= k < |ms| && ms[k].name == ms[j].name && Reaches(ms, ms[k].deps, m.name);
      ReachVia(ms, ms[i].deps, k, m.name);
      assert Above(ms, ms[i].name, m.name);
    }
  }

  /** Adding a message to an acyclic list keeps it acyclic exactly when the message does not
      depend on itself through the list. */
  lemma {:induction false} AddExact(ms: seq<Message>, m: Message)
    requires Distinct(ms) && Acyclic(ms) && !Defined(ms, m.name)
    ensures Acyclic(ms + [m]) <==> !Reaches(ms, m.deps, m.name)
  {
    if Reaches(ms, m.deps, m.name) {
      SelfReachIsCycle(ms, m);
    } else {
      AddKeepsAcyclic(ms, m);
    }
  }

  /** The part of `ProtoFile` that collects messages. */
  class ProtoFile {
    var messages: seq<Message>

    ghost predicate Valid()
      reads this
    {
      Distinct(messages) && Acyclic(messages)
    }

    constructor ()
      ensures Valid() && messages == []
    {
      messages := [];
      new;
      assert Ranked(messages, (n: Name) => 0);
    }

    /** The cycle-breaking step of `ProtoFile.parse`. `fallback` is the message as it is built
        with the fallback type. The list stays acyclic exactly when the message did not have to
        be converted or the conversion left no way back to it; that is so in particular when
        it left no dependencies at all. */
    method AddMessage(m: Message, fallback: Message) returns (broke: bool)
      requires Valid() && !Defined(messages, m.name) && fallback.name == m.name
      modifies this
      ensures Distinct(messages) && messages == old(messages) + [if broke then fallback else m]
      ensures broke <==> !Acyclic(old(messages) + [m])
      ensures Acyclic(messages) <==> (broke ==> !Reaches(old(messages), fallback.deps, fallback.name))
      ensures fallback.deps == [] ==> Valid()
    {
      AddExact(messages, m);
      AddExact(messages, fallback);
      NothingReached(messages, fallback.name);
      broke := CheckRecursive(m, messages);
      assert forall i :: 0 <= i < |messages| ==> messages[i].name != m.name;
      messages := messages + [if broke then fallback else m];
    }
  }

  lemma {:induction false} NothingReached(ms: seq<Message>, root: Name)
    ensures !Reaches(ms, [], root)
  {
  }

  // ------------------------------------------------------------------
  // sort_dependencies
  // ------------------------------------------------------------------

  ghost predicate Names(ms: seq<Message>, names: set<Name>) {
    forall n :: n in names <==> Defined(ms, n)
  }

  /** Every message comes after the messages of `ms` it depends on. */
  ghost predicate Follows(out: seq<Message>, ms: seq<Message>) {
    forall i, n :: 0 <= i < |out| && n in out[i].deps && Defined(ms, n) ==> Defined(out[..i], n)
  }

  /** The candidate depends on nothing that remains. */
  predicate Ready(m: Message, remainset: set<Name>) {
    forall n :: n in m.deps ==> n !in remainset
  }

  /** The inner loop: the first candidate that is ready, or -1. */
  method FindReady(remaining: seq<Message>, remainset: set<Name>) returns (c: int)
    ensures -1 <= c < |remaining|
    ensures c >= 0 ==> Ready(remaining[c], remainset)
    ensures c < 0 ==> forall i :: 0 <= i < |remaining| ==> !Ready(remaining[i], remainset)
  {
    c := 0;
    while c < |remaining|
      invariant 0 <= c <= |remaining| && forall i :: 0 <= i < c ==> !Ready(remaining[i], remainset)
    {
      if Ready(remaining[c], remainset) {
        return;
      }
      c := c + 1;
    }
    c := -1;
  }

  lemma {:induction false} LowestRank(ms: seq<Message>, rank: Name -> nat) returns (i: nat)
    requires ms != []
    ensures i < |ms| && forall j :: 0 <= j < |ms| ==> rank(ms[i].name) <= rank(ms[j].name)
  {
    if |ms| == 1 {
      i := 0;
    } else {
      i := LowestRank(ms[..|ms| - 1], rank);
      if rank(ms[|ms| - 1].name) < rank(ms[i].name) {
        i := |ms| - 1;
      }
    }
  }

  /** In an acyclic graph something is always ready. */
  lemma {:induction false} SomethingReady(ms: seq<Message>, remaining: seq<Message>, remainset: set<Name>)
    requires Acyclic(ms) && remaining != [] && Names(remaining, remainset)
    requires forall i :: 0 <= i < |remaining| ==> remaining[i] in ms
    ensures exists i :: 0 <= i < |remaining| && Ready(remaining[i], remainset)
  {
    var rank: Name -> nat :| Ranked(ms, rank);
    var i := LowestRank(remaining, rank);
    var k :| 0 <= k < |ms| && ms[k] == remaining[i];
    forall j | 0 <= j < |remaining| ensures Defined(ms, remaining[j].name) {
      assert remaining[j] in ms;
    }
    forall n | n in remaining[i].deps ensures n !in remainset {
      assert Defined(ms, n) ==> rank(n) < rank(ms[k].name);
    }
    assert Ready(remaining[i], remainset);
  }

  /** The state of the outer loop: what is out and what remains are the messages. */
  ghost predicate Sorting(ms: seq<Message>, out: seq<Message>, remaining: seq<Message>, remainset: set<Name>) {
    && multiset(out) + multiset(remaining) == multiset(ms)
    && Distinct(remaining)
    && Names(remaining, remainset)
  }

  lemma {:induction false} NamesWithout(remaining: seq<Message>, remainset: set<Name>, c: nat)
    requires Distinct(remaining) && Names(remaining, remainset) && c < |remaining|
    ensures Names(remaining[..c] + remaining[c + 1..], remainset - {remaining[c].name})
  {
    var m, rest := remaining[c], remaining[..c] + remaining[c + 1..];
    forall n ensures n in remainset - {m.name} <==> Defined(rest, n) {
      if Defined(rest, n) {
        var j :| 0 <= j < |rest| && rest[j].name == n;
        assert remaining[if j < c then j else j + 1].name == n;
      }
      if n in remainset - {m.name} {
        var j :| 0 <= j < |remaining| && remaining[j].name == n;
        assert rest[if j < c then j else j - 1].name == n;
      }
    }
  }

  lemma {:induction false} MoveOne(out: seq<Message>, remaining: seq<Message>, c: nat)
    requires c < |remaining|
    ensures multiset(out + [remaining[c]]) + multiset(remaining[..c] + remaining[c + 1..]) == multiset(out) + multiset(remaining)
  {
    assert remaining == remaining[..c] + [remaining[c]] + remaining[c + 1..];
  }

  lemma {:induction false} Emit(ms: seq<Message>, out: seq<Message>, remaining: seq<Message>, remainset: set<Name>, c: nat)
    requires Sorting(ms, out, remaining, remainset) && c < |remaining|
    ensures Sorting(ms, out + [remaining[c]], remaining[..c] + remaining[c + 1..], remainset - {remaining[c].name})
  {
    NamesWithout(remaining, remainset, c);
    MoveOne(out, remaining, c);
  }

  lemma {:induction false} MemberOf(ms: seq<Message>, out: seq<Message>, remaining: seq<Message>)
    requires multiset(out) + multiset(remaining) == multiset(ms)
    ensures forall i :: 0 <= i < |remaining| ==> remaining[i] in ms
    ensures forall n :: Defined(ms, n) ==> Defined(out, n) || Defined(remaining, n)
  {
    forall i | 0 <= i < |remaining| ensures remaining[i] in ms {
      assert remaining[i] in multiset(ms);
    }
    forall n | Defined(ms, n) ensures Defined(out, n) || Defined(remaining, n) {
      var j :| 0 <= j < |ms| && ms[j].name == n;
      assert ms[j] in multiset(out) + multiset(remaining);
    }
  }

  lemma {:induction false} FollowsMore(ms: seq<Message>, out: seq<Message>, m: Message)
    requires Follows(out, ms) && forall n :: n in m.deps && Defined(ms, n) ==> Defined(out, n)
    ensures Follows(out + [m], ms)
  {
    var all := out + [m];
    forall i, n | 0 <= i < |all| && n in all[i].deps && Defined(ms, n) ensures Defined(all[..i], n) {
      if i < |out| {
        assert all[..i] == out[..i];
        assert n in out[i].deps;
      } else {
        assert all[..i] == out;
      }
    }
  }

  /** Position of a message in the output, by name. */
  ghost function Position(out: seq<Message>, n: Name): nat {
    if out == [] then 0
    else if Defined(out[..|out| - 1], n) then Position(out[..|out| - 1], n)
    else |out| - 1
  }

  lemma {:induction false} PositionAt(out: seq<Message>, i: nat, n: Name)
    requires Distinct(out) && i < |out|
    ensures out[i].name == n ==> Position(out, n) == i
    decreases |out|
  {
    var front := out[..|out| - 1];
    if out[i].name == n {
      if i < |out| - 1 {
        assert front[i].name == n;
        PositionAt(front, i, n);
      }
    }
  }

  /** An order in which every message follows its dependencies shows there is no cycle. */
  lemma {:induction false} OrderIsAcyclic(ms: seq<Message>, out: seq<Message>)
    requires Distinct(out) && multiset(out) == multiset(ms) && Follows(out, ms)
    ensures Acyclic(ms)
  {
    var rank := (n: Name) => Position(out, n);
    forall i, n | 0 <= i < |ms| && n in ms[i].deps && Defined(ms, n) ensures rank(n) < rank(ms[i].name) {
      assert ms[i] in multiset(out);
      var k :| 0 <= k < |out| && out[k] == ms[i];
      assert Defined(out[..k], n);
      var j :| 0 <= j < k && out[..k][j].name == n;
      PositionAt(out, k, ms[i].name);
      PositionAt(out, j, n);
    }
    assert Ranked(ms, rank);
  }

  lemma {:induction false} SamePermutation(a: seq<Message>, b: seq<Message>)
    requires Distinct(a) && multiset(a) == multiset(b)
    ensures Distinct(b)
  {
    forall i, j | 0 <= i < j < |b| ensures b[i].name != b[j].name {
      if b[i].name == b[j].name {
        assert b[i] in multiset(a) && b[j] in multiset(a);
        var x :| 0 <= x < |a| && a[x] == b[i];
        var y :| 0 <= y < |a| && a[y] == b[j];
        assert x == y;
        assert multiset(b)[b[i]] == multiset(a)[a[x]];
        TwiceThere(b, i, j);
        OnceThere(a, x);
      }
    }
  }

  lemma {:induction false} TwiceThere(b: seq<Message>, i: nat, j: nat)
    requires i < j < |b| && b[i] == b[j]
    ensures multiset(b)[b[i]] >= 2
  {
    assert b == b[..j] + [b[j]] + b[j + 1..];
    assert b[i] in b[..j];
  }

  lemma {:induction false} OnceThere(a: seq<Message>, x: nat)
    requires Distinct(a) && x < |a|
    ensures multiset(a)[a[x]] == 1
  {
    assert a == a[..x] + [a[x]] + a[x + 1..];
    assert a[x] !in a[..x] && a[x] !in a[x + 1..];
  }

  /** `sort_dependencies`: always a permutation; it takes the circular branch exactly when
      there is a cycle, and otherwise every message follows all it depends on. */
  method SortDependencies(ms: seq<Message>) returns (out: seq<Message>, circular: bool)
    requires Distinct(ms)
    ensures multiset(out) == multiset(ms)
    ensures circular <==> !Acyclic(ms)
    ensures !circular ==> Follows(out, ms)
  {
    out, circular := [], false;
    var remaining := ms;
    var remainset := set m | m in ms :: m.name;
    assert Names(remaining, remainset);
    while remaining != []
      invariant Sorting(ms, out, remaining, remainset)
      invariant circular ==> !Acyclic(ms)
      invariant !circular ==> Follows(out, ms)
      decreases |remaining|
    {
      MemberOf(ms, out, remaining);
      var c := FindReady(remaining, remainset);
      if c < 0 {
        if Acyclic(ms) {
          SomethingReady(ms, remaining, remainset);
        }
        circular := true;
        c := 0;
      } else if !circular {
        FollowsMore(ms, out, remaining[c]);
      }
      Emit(ms, out, remaining, remainset, c);
      var candidate := remaining[c];
      remaining := remaining[..c] + remaining[c + 1..];
      remainset := remainset - {candidate.name};
      out := out + [candidate];
    }
    if !circular {
      SamePermutation(ms, out);
      OrderIsAcyclic(ms, out);
    }
  }
}
