/**
 Lookup in the capability trie (harmony/trie/src/lib.rs).

 A node is an array of `count` slots, and a slot may point to another node.  Nothing keeps user
 code from sharing nodes or closing cycles, so the nodes form an arbitrary graph; only the last
 section speaks of graphs that happen to be trees.
 */
module Tries {

  /** What `Slot::child` answers. */
  datatype Child = To(node: nat) | NoChild | Failed

  type Graph = map<nat, seq<Child>>

  /** The slot a lookup found, `Ok(None)`, or the error of a slot. */
  datatype Found = At(node: nat, slot: nat) | Missing | Error

  predicate IsGraph(g: Graph, count: nat) {
    forall n :: n in g ==> |g[n]| == count && Closed(g, g[n])
  }

  predicate Closed(g: Graph, slots: seq<Child>) {
    forall s :: 0 <= s < |slots| && slots[s].To? ==> slots[s].node in g
  }

  /** The slot an id picks in the first node. */
  function Offset(id: nat, count: nat): (d: nat)
    requires count >= 2
    ensures d < count
  {
    id % count
  }

  /** The id to look up from there. */
  function Rest(id: nat, count: nat): (rest: nat)
    requires count >= 2
    ensures rest == 0 || rest < id
  {
    Quotient(id, count);
    id / count
  }

  /** Dividing by at least two shrinks. */
  lemma {:induction false} Quotient(id: nat, count: nat)
    requires count >= 2
    ensures id / count == 0 || id / count < id
  {
    var rest := id / count;
    assert id == count * rest + id % count;
    Scaled(rest, 2, count);
  }

  /** An id is made of its offset and its rest. */
  lemma {:induction false} OffsetAndRest(id: nat, count: nat)
    requires count >= 2
    ensures id == Offset(id, count) + count * Rest(id, count)
  {
  }

  lemma {:induction false} Scaled(count: nat, x: nat, y: nat)
    requires x <= y
    ensures count * x <= count * y
  {
  }

  /** `get_inner`: terminates on every graph, because the id shrinks. */
  function Get(g: Graph, count: nat, n: nat, id: nat): (r: Found)
    requires count >= 2 && IsGraph(g, count) && n in g
    ensures r.At? ==> r.node in g && r.slot < count
    decreases id
  {
    hide Offset, Rest;
    var offset := Offset(id, count);
    var rest := Rest(id, count);
    if rest == 0 then At(n, offset)
    else match g[n][offset]
      case NoChild => Missing
      case Failed => Error
      case To(child) => Get(g, count, child, rest)
  }

  /** How many nodes `get_inner` looks at. */
  function Visits(g: Graph, count: nat, n: nat, id: nat): (k: nat)
    requires count >= 2 && IsGraph(g, count) && n in g
    ensures k >= 1
    decreases id
  {
    hide Offset, Rest;
    if Rest(id, count) == 0 || !g[n][Offset(id, count)].To? then 1
    else 1 + Visits(g, count, g[n][Offset(id, count)].node, Rest(id, count))
  }

  // Ids as digit strings

  /** The digits of an id in base `count`, least significant first. */
  function Digits(id: nat, count: nat): (ds: seq<nat>)
    requires count >= 2
    ensures |ds| >= 1 && Canonical(ds, count) && (id != 0 ==> ds[|ds| - 1] != 0)
    decreases id
  {
    hide Offset, Rest;
    OffsetAndRest(id, count);
    if Rest(id, count) == 0 then [Offset(id, count)] else [Offset(id, count)] + Digits(Rest(id, count), count)
  }

  /** Digit strings without superfluous zeros. */
  predicate Canonical(ds: seq<nat>, count: nat) {
    && |ds| >= 1 && (forall i :: 0 <= i < |ds| ==> ds[i] < count)
    && (|ds| > 1 ==> ds[|ds| - 1] != 0)
  }

  function Number(ds: seq<nat>, count: nat): (id: nat) {
    if ds == [] then 0 else ds[0] + count * Number(ds[1..], count)
  }

  function Power(b: nat, k: nat): (p: nat) {
    if k == 0 then 1 else b * Power(b, k - 1)
  }

  lemma {:induction false} NumberOfDigits(id: nat, count: nat)
    requires count >= 2
    ensures Number(Digits(id, count), count) == id
    decreases id
  {
    hide Offset, Rest;
    OffsetAndRest(id, count);
    if Rest(id, count) != 0 {
      NumberOfDigits(Rest(id, count), count);
      assert Digits(id, count)[1..] == Digits(Rest(id, count), count);
    }
  }

  lemma {:induction false} DivideDigit(d: nat, rest: nat, count: nat)
    requires d < count
    ensures (d + count * rest) / count == rest && (d + count * rest) % count == d
  {
    var x := d + count * rest;
    var e := x / count - rest;
    assert count * e == d - x % count;
  }

  lemma {:induction false} CanonicalIsPositive(ds: seq<nat>, count: nat)
    requires count >= 2 && Canonical(ds, count) && ds[|ds| - 1] != 0
    ensures Number(ds, count) > 0
  {
    if |ds| > 1 {
      CanonicalIsPositive(ds[1..], count);
    }
  }

  lemma {:induction false} DigitsOfNumber(ds: seq<nat>, count: nat)
    requires count >= 2 && Canonical(ds, count)
    ensures Digits(Number(ds, count), count) == ds
  {
    DivideDigit(ds[0], Number(ds[1..], count), count);
    if |ds| > 1 {
      CanonicalIsPositive(ds[1..], count);
      DigitsOfNumber(ds[1..], count);
    }
  }

  lemma {:induction false} DigitsAreFew(id: nat, count: nat, k: nat)
    requires count >= 2 && k >= 1 && id < Power(count, k)
    ensures |Digits(id, count)| <= k
  {
    hide Offset, Rest;
    OffsetAndRest(id, count);
    if Rest(id, count) != 0 {
      assert k > 1;
      if Rest(id, count) >= Power(count, k - 1) {
        Scaled(count, Power(count, k - 1), Rest(id, count));
      }
      DigitsAreFew(Rest(id, count), count, k - 1);
    }
  }

  // The walk

  /** Where a string of hops leads. */
  function After(g: Graph, count: nat, n: nat, hops: seq<nat>): (r: Child)
    requires IsGraph(g, count) && n in g && forall i :: 0 <= i < |hops| ==> hops[i] < count
    ensures r.To? ==> r.node in g
  {
    if hops == [] then To(n) else
    match After(g, count, n, hops[..|hops| - 1])
    case To(m) => g[m][hops[|hops| - 1]]
    case NoChild => NoChild
    case Failed => Failed
  }

  lemma {:induction false} AfterFirst(g: Graph, count: nat, n: nat, d: nat, hops: seq<nat>)
    requires IsGraph(g, count) && n in g && d < count && forall i :: 0 <= i < |hops| ==> hops[i] < count
    ensures After(g, count, n, [d] + hops) ==
            match g[n][d] { case To(m) => After(g, count, m, hops) case c => c }
  {
    if hops == [] {
      assert ([d] + hops)[..0] == [];
    } else {
      var shorter := hops[..|hops| - 1];
      assert ([d] + hops)[..|hops|] == [d] + shorter;
      AfterFirst(g, count, n, d, shorter);
    }
  }

  function Resolve(c: Child, slot: nat): (r: Found) {
    match c
    case To(m) => At(m, slot)
    case NoChild => Missing
    case Failed => Error
  }

  /** Lookup is the walk along the digits of the id: all but the last are hops, the last is the slot. */
  lemma {:induction false} GetIsWalk(g: Graph, count: nat, n: nat, id: nat)
    requires count >= 2 && IsGraph(g, count) && n in g
    ensures var ds := Digits(id, count);
            Get(g, count, n, id) == Resolve(After(g, count, n, ds[..|ds| - 1]), ds[|ds| - 1])
    decreases id
  {
    hide Offset, Rest;
    var ds := Digits(id, count);
    if Rest(id, count) != 0 {
      var rest := Digits(Rest(id, count), count);
      assert ds[..|ds| - 1] == [Offset(id, count)] + rest[..|rest| - 1];
      AfterFirst(g, count, n, Offset(id, count), rest[..|rest| - 1]);
      if g[n][Offset(id, count)].To? {
        GetIsWalk(g, count, g[n][Offset(id, count)].node, Rest(id, count));
      }
    }
  }

  lemma {:induction false} VisitsAtMostDigits(g: Graph, count: nat, n: nat, id: nat)
    requires count >= 2 && IsGraph(g, count) && n in g
    ensures Visits(g, count, n, id) <= |Digits(id, count)|
    ensures Get(g, count, n, id).At? ==> Visits(g, count, n, id) == |Digits(id, count)|
    decreases id
  {
    hide Offset, Rest;
    if Rest(id, count) != 0 && g[n][Offset(id, count)].To? {
      VisitsAtMostDigits(g, count, g[n][Offset(id, count)].node, Rest(id, count));
    }
  }

  /** Whatever the graph, an id below `count^k` visits at most `k` nodes. */
  lemma {:induction false} LookupIsShallow(g: Graph, count: nat, n: nat, id: nat, k: nat)
    requires count >= 2 && IsGraph(g, count) && n in g && k >= 1 && id < Power(count, k)
    ensures 1 <= Visits(g, count, n, id) <= k
  {
    VisitsAtMostDigits(g, count, n, id);
    DigitsAreFew(id, count, k);
  }

  /** Slots in a capability table, and the range of a capability id. */
  const NUM_SLOTS: nat := 128
  const IDS: nat := 0x1_0000_0000

  lemma {:induction false} KernelLookupIsShallow(g: Graph, n: nat, id: nat)
    requires IsGraph(g, NUM_SLOTS) && n in g && id < IDS
    ensures Visits(g, NUM_SLOTS, n, id) <= 5
  {
    assert Power(NUM_SLOTS, 2) == 0x4000;
    assert Power(NUM_SLOTS, 4) == 0x4000 * 0x4000;
    LookupIsShallow(g, NUM_SLOTS, n, id, 5);
  }

  // Link and Unlink

  /** The graph after the child of slot `s` of node `n` is changed. */
  function Relink(g: Graph, count: nat, n: nat, s: nat, c: Child): (g': Graph)
    requires IsGraph(g, count) && n in g && s < count && (c.To? ==> c.node in g)
    ensures IsGraph(g', count) && g'.Keys == g.Keys
  {
    g[n := g[n][s := c]]
  }

  /** The lookup of `id` hops out of slot `s` of node `n` after `i` hops. */
  predicate HopsAt(g: Graph, count: nat, root: nat, id: nat, n: nat, s: nat, i: nat)
    requires count >= 2 && IsGraph(g, count) && root in g
  {
    var ds := Digits(id, count);
    i < |ds| - 1 && After(g, count, root, ds[..i]) == To(n) && ds[i] == s
  }

  predicate Hops(g: Graph, count: nat, root: nat, id: nat, n: nat, s: nat)
    requires count >= 2 && IsGraph(g, count) && root in g
  {
    exists i: nat :: i < |Digits(id, count)| && HopsAt(g, count, root, id, n, s, i)
  }

  lemma {:induction false} HopsShift(g: Graph, count: nat, root: nat, id: nat, n: nat, s: nat, i: nat)
    requires count >= 2 && IsGraph(g, count) && root in g && Rest(id, count) != 0
    ensures HopsAt(g, count, root, id, n, s, i + 1) <==>
            g[root][Offset(id, count)].To? &&
            HopsAt(g, count, g[root][Offset(id, count)].node, Rest(id, count), n, s, i)
  {
    hide Offset, Rest, IsGraph, Canonical;
    InGraph(g, count, root, id);
    var rest := Digits(Rest(id, count), count);
    assert Digits(id, count) == [Offset(id, count)] + rest;
    if i < |rest| - 1 {
      assert Digits(id, count)[..i + 1] == [Offset(id, count)] + rest[..i];
      AfterFirst(g, count, root, Offset(id, count), rest[..i]);
    }
  }

  lemma {:induction false} InGraph(g: Graph, count: nat, n: nat, id: nat)
    requires count >= 2 && IsGraph(g, count) && n in g
    ensures |g[n]| == count && (g[n][Offset(id, count)].To? ==> g[n][Offset(id, count)].node in g)
    ensures forall i :: 0 <= i < |Digits(id, count)| ==> Digits(id, count)[i] < count
    ensures forall i :: 0 <= i < |Digits(Rest(id, count), count)| ==> Digits(Rest(id, count), count)[i] < count
  {
  }

  /** Hopping through (n, s) means doing so now, or later from the child. */
  lemma {:induction false} HopsUnfold(g: Graph, count: nat, root: nat, id: nat, n: nat, s: nat)
    requires count >= 2 && IsGraph(g, count) && root in g
    ensures Hops(g, count, root, id, n, s) <==>
            Rest(id, count) != 0 &&
            ((root == n && Offset(id, count) == s) ||
             (g[root][Offset(id, count)].To? && Hops(g, count, g[root][Offset(id, count)].node, Rest(id, count), n, s)))
  {
    hide Offset, Rest, IsGraph, Canonical;
    InGraph(g, count, root, id);
    if Rest(id, count) != 0 {
      assert HopsAt(g, count, root, id, n, s, 0) <==> root == n && Offset(id, count) == s;
      if i: nat :| i < |Digits(id, count)| && HopsAt(g, count, root, id, n, s, i) {
        if i > 0 {
          HopsShift(g, count, root, id, n, s, i - 1);
        }
      } else if g[root][Offset(id, count)].To? {
        forall i: nat | i < |Digits(Rest(id, count), count)|
          ensures !HopsAt(g, count, g[root][Offset(id, count)].node, Rest(id, count), n, s, i)
        {
          HopsShift(g, count, root, id, n, s, i);
        }
      }
    }
  }

  /** Locality: an id whose old lookup does not hop through the changed slot finds what it found. */
  lemma {:induction false} RelinkIsLocal(g: Graph, count: nat, root: nat, id: nat, n: nat, s: nat, c: Child)
    requires count >= 2 && IsGraph(g, count) && root in g && n in g && s < count && (c.To? ==> c.node in g)
    ensures !Hops(g, count, root, id, n, s) ==> Get(Relink(g, count, n, s, c), count, root, id) == Get(g, count, root, id)
    ensures Hops(Relink(g, count, n, s, c), count, root, id, n, s) <==> Hops(g, count, root, id, n, s)
    decreases id
  {
    hide Offset, Rest;
    var g' := Relink(g, count, n, s, c);
    HopsUnfold(g, count, root, id, n, s);
    HopsUnfold(g', count, root, id, n, s);
    if Rest(id, count) != 0 && !(root == n && Offset(id, count) == s) {
      assert g'[root][Offset(id, count)] == g[root][Offset(id, count)];
      if g[root][Offset(id, count)].To? {
        RelinkIsLocal(g, count, g[root][Offset(id, count)].node, Rest(id, count), n, s, c);
      }
    }
  }

  /** What is left of an id when its lookup first hops through (n, s). */
  function RestAt(g: Graph, count: nat, root: nat, id: nat, n: nat, s: nat): (rest: nat)
    requires count >= 2 && IsGraph(g, count) && root in g
    decreases id
  {
    hide Offset, Rest;
    if Rest(id, count) == 0 then 0
    else if (root == n && Offset(id, count) == s) || !g[root][Offset(id, count)].To? then Rest(id, count)
    else RestAt(g, count, g[root][Offset(id, count)].node, Rest(id, count), n, s)
  }

  /** The other ids: after Link they are looked up from the linked table, after Unlink they are not found. */
  lemma {:induction false} RelinkTakesEffect(g: Graph, count: nat, root: nat, id: nat, n: nat, s: nat, c: Child)
    requires count >= 2 && IsGraph(g, count) && root in g && n in g && s < count && (c.To? ==> c.node in g)
    requires Hops(g, count, root, id, n, s)
    ensures Get(Relink(g, count, n, s, c), count, root, id) ==
            match c
            case NoChild => Missing
            case Failed => Error
            case To(m) => Get(Relink(g, count, n, s, c), count, m, RestAt(g, count, root, id, n, s))
    decreases id
  {
    hide Offset, Rest;
    HopsUnfold(g, count, root, id, n, s);
    if !(root == n && Offset(id, count) == s) {
      assert Relink(g, count, n, s, c)[root][Offset(id, count)] == g[root][Offset(id, count)];
      RelinkTakesEffect(g, count, g[root][Offset(id, count)].node, Rest(id, count), n, s, c);
    }
  }

  /** A part of the graph that is closed under hops looks up the same. */
  lemma {:induction false} PartLooksTheSame(g: Graph, part: Graph, count: nat, n: nat, id: nat)
    requires count >= 2 && IsGraph(g, count) && IsGraph(part, count) && n in part
    requires forall m :: m in part ==> m in g && part[m] == g[m]
    ensures Get(part, count, n, id) == Get(g, count, n, id)
    decreases id
  {
    hide Offset, Rest;
    if Rest(id, count) != 0 && g[n][Offset(id, count)].To? {
      PartLooksTheSame(g, part, count, g[n][Offset(id, count)].node, Rest(id, count));
    }
  }

  /** A walk from such a part hops only through nodes of the part. */
  lemma {:induction false} HopsStayInPart(g: Graph, part: Graph, count: nat, root: nat, id: nat, n: nat, s: nat)
    requires count >= 2 && IsGraph(g, count) && IsGraph(part, count) && root in part
    requires forall m :: m in part ==> m in g && part[m] == g[m]
    requires Hops(g, count, root, id, n, s)
    ensures n in part
    decreases id
  {
    hide Offset, Rest, Hops;
    HopsUnfold(g, count, root, id, n, s);
    if root != n || Offset(id, count) != s {
      HopsStayInPart(g, part, count, g[root][Offset(id, count)].node, Rest(id, count), n, s);
    }
  }

  // Trees

  /** The nodes of `part` hang below `root` as a tree. */
  predicate IsTree(g: Graph, root: nat, part: set<nat>) {
    && root in part
    && (forall n :: n in part ==> n in g)
    && (forall n, s :: n in part && 0 <= s < |g[n]| && g[n][s].To? ==> g[n][s].node in part && g[n][s].node != root)
    && (forall n, s, m, t :: n in part && m in part && 0 <= s < |g[n]| && 0 <= t < |g[m]| && g[n][s].To? && g[n][s] == g[m][t] ==>
          n == m && s == t)
  }

  lemma {:induction false} HopsAreUnique(g: Graph, count: nat, root: nat, part: set<nat>, xs: seq<nat>, ys: seq<nat>)
    requires IsGraph(g, count) && root in g && IsTree(g, root, part)
    requires (forall i :: 0 <= i < |xs| ==> xs[i] < count) && (forall i :: 0 <= i < |ys| ==> ys[i] < count)
    requires After(g, count, root, xs).To? && After(g, count, root, xs) == After(g, count, root, ys)
    ensures After(g, count, root, xs).node in part && xs == ys
    decreases |xs| + |ys|
  {
    if xs != [] && ys != [] {
      var x, y := xs[..|xs| - 1], ys[..|ys| - 1];
      StaysInPart(g, count, root, part, x);
      StaysInPart(g, count, root, part, y);
      HopsAreUnique(g, count, root, part, x, y);
      assert xs == x + [xs[|xs| - 1]] && ys == y + [ys[|ys| - 1]];
    } else if xs != [] {
      StaysInPart(g, count, root, part, xs);
      StaysInPart(g, count, root, part, xs[..|xs| - 1]);
    } else if ys != [] {
      StaysInPart(g, count, root, part, ys[..|ys| - 1]);
    }
  }

  lemma {:induction false} StaysInPart(g: Graph, count: nat, root: nat, part: set<nat>, xs: seq<nat>)
    requires IsGraph(g, count) && root in g && IsTree(g, root, part)
    requires (forall i :: 0 <= i < |xs| ==> xs[i] < count) && After(g, count, root, xs).To?
    ensures After(g, count, root, xs).node in part
  {
    if xs != [] {
      StaysInPart(g, count, root, part, xs[..|xs| - 1]);
    }
  }

  /** On a tree, different ids never find the same slot. */
  lemma {:induction false} AddressingIsInjective(g: Graph, count: nat, root: nat, part: set<nat>, id: nat, id': nat)
    requires count >= 2 && IsGraph(g, count) && root in g && IsTree(g, root, part)
    requires Get(g, count, root, id).At? && Get(g, count, root, id) == Get(g, count, root, id')
    ensures id == id'
  {
    hide IsGraph, Get, Digits, Number, IsTree, After;
    var ds, ds' := Digits(id, count), Digits(id', count);
    GetIsWalk(g, count, root, id);
    GetIsWalk(g, count, root, id');
    HopsAreUnique(g, count, root, part, ds[..|ds| - 1], ds'[..|ds'| - 1]);
    assert ds == ds[..|ds| - 1] + [ds[|ds| - 1]] && ds' == ds'[..|ds'| - 1] + [ds'[|ds'| - 1]];
    NumberOfDigits(id, count);
    NumberOfDigits(id', count);
  }

  /** A string of hops that leads to node `m`, after which slot `s` completes an id below `ids`. */
  predicate Addresses(g: Graph, count: nat, root: nat, hops: seq<nat>, m: nat, s: nat, ids: nat)
    requires IsGraph(g, count) && root in g
  {
    && (forall i :: 0 <= i < |hops| ==> hops[i] < count) && s < count
    && After(g, count, root, hops) == To(m)
    && (hops != [] ==> s != 0)
    && Number(hops + [s], count) < ids
  }

  lemma {:induction false} FoundHasAddress(g: Graph, count: nat, root: nat, id: nat, m: nat, s: nat, ids: nat)
    requires count >= 2 && IsGraph(g, count) && root in g && id < ids && Get(g, count, root, id) == At(m, s)
    ensures exists hops: seq<nat> :: Addresses(g, count, root, hops, m, s, ids)
  {
    hide IsGraph, Get, Digits, Number;
    var ds := Digits(id, count);
    GetIsWalk(g, count, root, id);
    NumberOfDigits(id, count);
    assert ds[..|ds| - 1] + [ds[|ds| - 1]] == ds;
    assert Addresses(g, count, root, ds[..|ds| - 1], m, s, ids);
  }

  lemma {:induction false} AddressIsFound(g: Graph, count: nat, root: nat, hops: seq<nat>, m: nat, s: nat, ids: nat)
    requires count >= 2 && IsGraph(g, count) && root in g && Addresses(g, count, root, hops, m, s, ids)
    ensures Get(g, count, root, Number(hops + [s], count)) == At(m, s)
  {
    hide IsGraph, Get, Digits, Number;
    var ds := hops + [s];
    DigitsOfNumber(ds, count);
    GetIsWalk(g, count, root, Number(ds, count));
    assert ds[..|ds| - 1] == hops;
  }

  /** The slots lookups can find: those of the root, and the non-zero slots of nodes within range. */
  lemma {:induction false} FoundSlots(g: Graph, count: nat, root: nat, m: nat, s: nat, ids: nat)
    requires count >= 2 && IsGraph(g, count) && root in g
    ensures (exists id: nat :: id < ids && Get(g, count, root, id) == At(m, s)) <==>
            (exists hops: seq<nat> :: Addresses(g, count, root, hops, m, s, ids))
  {
    hide IsGraph, Get, Digits, Number, After;
    if id: nat :| id < ids && Get(g, count, root, id) == At(m, s) {
      FoundHasAddress(g, count, root, id, m, s, ids);
    }
    if hops: seq<nat> :| Addresses(g, count, root, hops, m, s, ids) {
      AddressIsFound(g, count, root, hops, m, s, ids);
    }
  }

  lemma {:induction false} Carry(d: nat, count: nat, x: nat, y: nat)
    requires d < count && x < y
    ensures d + count * x < count * y
  {
    Scaled(count, x + 1, y);
  }

  lemma {:induction false} NumberBelowPower(ds: seq<nat>, count: nat)
    requires forall i :: 0 <= i < |ds| ==> ds[i] < count
    ensures Number(ds, count) < Power(count, |ds|)
  {
    if ds != [] {
      NumberBelowPower(ds[1..], count);
      Carry(ds[0], count, Number(ds[1..], count), Power(count, |ds| - 1));
    }
  }

  lemma {:induction false} NumberAppend(hops: seq<nat>, s: nat, count: nat)
    ensures Number(hops + [s], count) == Number(hops, count) + Power(count, |hops|) * s
  {
    if hops == [] {
      assert hops + [s] == [s];
    } else {
      NumberAppend(hops[1..], s, count);
      assert (hops + [s])[1..] == hops[1..] + [s];
      Distribute(count, Number(hops[1..], count), Power(count, |hops| - 1), s);
    }
  }

  lemma {:induction false} Distribute(a: nat, x: nat, b: nat, c: nat)
    ensures a * (x + b * c) == a * x + a * b * c
  {
  }

  lemma {:induction false} PowerGrows(count: nat, k: nat, n: nat)
    requires count >= 1 && k <= n
    ensures 1 <= Power(count, k) <= Power(count, n)
  {
    if k < n {
      PowerGrows(count, k, n - 1);
      Scaled(Power(count, n - 1), 1, count);
    } else if k > 0 {
      PowerGrows(count, k - 1, k - 1);
      Scaled(count, 1, Power(count, k - 1));
    }
  }

  /** With 128 slots and 32-bit ids: all slots of the root, down to three hops all but the first, at four 1 to 15. */
  predicate InKernelRange(hops: nat, s: nat) {
    s < NUM_SLOTS && (hops == 0 || (hops <= 3 && s != 0) || (hops == 4 && 0 < s < 16))
  }

  lemma {:induction false} KernelNumbers(hops: seq<nat>, s: nat)
    requires (forall i :: 0 <= i < |hops| ==> hops[i] < NUM_SLOTS) && s < NUM_SLOTS && (hops != [] ==> s != 0)
    ensures Number(hops + [s], NUM_SLOTS) < IDS <==> InKernelRange(|hops|, s)
  {
    var p := Power(NUM_SLOTS, |hops|);
    NumberAppend(hops, s, NUM_SLOTS);
    NumberBelowPower(hops, NUM_SLOTS);
    assert Power(NUM_SLOTS, 1) == NUM_SLOTS && Power(NUM_SLOTS, 2) == 0x4000;
    assert Power(NUM_SLOTS, 3) == 0x20_0000 && Power(NUM_SLOTS, 4) == 0x1000_0000;
    assert Power(NUM_SLOTS, 5) == 0x8_0000_0000;
    hide Power, Number;
    if |hops| >= 5 {
      PowerGrows(NUM_SLOTS, 5, |hops|);
      Scaled(p, 1, s);
    }
  }

  /** Exactly these slots of a capability graph have an id. */
  lemma {:induction false} KernelSlotsInRange(g: Graph, root: nat, m: nat, s: nat)
    requires IsGraph(g, NUM_SLOTS) && root in g
    ensures (exists id: nat :: id < IDS && Get(g, NUM_SLOTS, root, id) == At(m, s)) <==>
            (exists hops: seq<nat> :: LeadsTo(g, root, hops, m) && InKernelRange(|hops|, s))
  {
    hide IsGraph, Get, Number, After;
    FoundSlots(g, NUM_SLOTS, root, m, s, IDS);
    if hops: seq<nat> :| Addresses(g, NUM_SLOTS, root, hops, m, s, IDS) {
      KernelNumbers(hops, s);
      assert LeadsTo(g, root, hops, m);
    }
    if hops: seq<nat> :| LeadsTo(g, root, hops, m) && InKernelRange(|hops|, s) {
      KernelNumbers(hops, s);
      assert Addresses(g, NUM_SLOTS, root, hops, m, s, IDS);
    }
  }

  predicate LeadsTo(g: Graph, root: nat, hops: seq<nat>, m: nat)
    requires IsGraph(g, NUM_SLOTS) && root in g
  {
    (forall i :: 0 <= i < |hops| ==> hops[i] < NUM_SLOTS) && After(g, NUM_SLOTS, root, hops) == To(m)
  }
}
