module Frequencies {
  /* What the adaptive tree counts: the weight of a leaf is the number of times its
     byte was referenced, and the root weighs as much as all of them together. */

  import opened WeightTree

  ghost function Count(t: Tree, s: nat): nat {
    if Has(t, s) then t[Find(t, s)].weight else 0
  }

  /** The tree after referencing the bytes of `data` in order, starting from `t`. */
  ghost function Learn(t: Tree, data: seq<nat>): (u: Tree)
    requires Inv(t) && forall i :: 0 <= i < |data| ==> data[i] < 256
    ensures Inv(u)
    decreases |data|
  {
    if data == [] then t
    else
      AddReferenceInv(t, data[0]);
      Learn(AddReference(t, data[0]), data[1..])
  }

  lemma FindIs(t: Tree, i: nat, s: nat)
    requires Labelled(t) && i < |t| && t[i].kind == Leaf(s)
    ensures Has(t, s) && Find(t, s) == i
  {
  }

  /** Where the entry of position `m` stands after positions `i` and `j` are exchanged. */
  function Moved(m: nat, i: nat, j: nat): nat {
    if m == i then j else if m == j then i else m
  }

  lemma RaiseEntry(t: Tree, i: nat, m: nat)
    requires i < |t| && m < |t|
    ensures var m' := Moved(m, i, Spot(t, i));
      && Raise(t, i)[m'].kind == t[m].kind
      && Raise(t, i)[m'].weight == t[m].weight + if m == i then 1 else 0
  {
  }

  lemma RaiseHas(t: Tree, i: nat, s: nat)
    requires i < |t|
    ensures Has(Raise(t, i), s) <==> Has(t, s)
  {
    var u, k := Raise(t, i), Spot(t, i);
    if Has(t, s) {
      var m := Find(t, s);
      RaiseEntry(t, i, m);
      assert u[Moved(m, i, k)].kind == Leaf(s);
    }
    if Has(u, s) {
      var m := Find(u, s);
      RaiseEntry(t, i, Moved(m, i, k));
      assert Moved(Moved(m, i, k), i, k) == m;
    }
  }

  lemma RaiseCount(t: Tree, i: nat, s: nat)
    requires Labelled(t) && i < |t| && Labelled(Raise(t, i))
    ensures Count(Raise(t, i), s) == Count(t, s) + if t[i].kind == Leaf(s) then 1 else 0
  {
    RaiseHas(t, i, s);
    if Has(t, s) {
      var m := Find(t, s);
      RaiseEntry(t, i, m);
      FindIs(Raise(t, i), Moved(m, i, Spot(t, i)), s);
      if t[i].kind == Leaf(s) { FindIs(t, i, s); }
    }
  }

  lemma {:induction false} IncrementCount(t: Tree, i: nat, s: nat)
    requires Ready(t, i)
    ensures Count(Increment(t, i), s) == Count(t, s) + if t[i].kind == Leaf(s) then 1 else 0
    ensures Has(Increment(t, i), s) <==> Has(t, s)
    ensures Increment(t, i)[0].weight == t[0].weight + 1
    decreases i
  {
    RaiseReady(t, i);
    var u, k := Raise(t, i), Spot(t, i);
    RaiseHas(t, i, s);
    RaiseCount(t, i, s);
    RaiseWeights(t, i);
    if k > 0 {
      IncrementCount(u, Parent(u, k), s);
    }
  }

  lemma SproutLacks(t: Tree, s: nat, x: nat)
    requires Structure(t) && x != s && !Has(t, x)
    ensures !Has(Sprout(t, s), x)
  {
    var u := Sprout(t, s);
    forall m | 0 <= m < |u| ensures u[m].kind != Leaf(x) {
      if m < |t| - 1 { assert u[m] == t[m]; }
    }
  }

  lemma SproutCount(t: Tree, s: nat, x: nat)
    requires Inv(t) && s < 256 && !Has(t, s)
    ensures Count(Sprout(t, s), x) == Count(t, x) + if x == s then 1 else 0
    ensures Has(Sprout(t, s), x) <==> Has(t, x) || x == s
  {
    var u := Sprout(t, s);
    SproutLabels(t, s);
    if x == s {
      FindIs(u, |t|, s);
    } else if Has(t, x) {
      var m := Find(t, x);
      assert u[m] == t[m];
      FindIs(u, m, x);
    } else {
      SproutLacks(t, s, x);
    }
  }

  /** A reference adds one to the count of its byte and to the root, nothing else. */
  lemma AddReferenceCount(t: Tree, s: nat, x: nat)
    requires Inv(t) && s < 256
    ensures Count(AddReference(t, s), x) == Count(t, x) + if x == s then 1 else 0
    ensures Has(AddReference(t, s), x) <==> Has(t, x) || x == s
    ensures AddReference(t, s)[0].weight == t[0].weight + 1
  {
    if Has(t, s) {
      LeafReady(t, Find(t, s));
      IncrementCount(t, Find(t, s), x);
      if t[Find(t, s)].kind == Leaf(x) { assert x == s; }
    } else {
      SproutReady(t, s);
      SproutCount(t, s, x);
      if |t| > 1 { IncrementCount(Sprout(t, s), |t| - 3, x); }
    }
  }

  lemma {:induction false} LearnCount(t: Tree, data: seq<nat>, x: nat)
    requires Inv(t) && forall i :: 0 <= i < |data| ==> data[i] < 256
    ensures Count(Learn(t, data), x) == Count(t, x) + multiset(data)[x]
    ensures Has(Learn(t, data), x) <==> Has(t, x) || x in data
    ensures Learn(t, data)[0].weight == t[0].weight + |data|
    decreases |data|
  {
    if data == [] {
    } else {
      AddReferenceInv(t, data[0]);
      AddReferenceCount(t, data[0], x);
      LearnCount(AddReference(t, data[0]), data[1..], x);
      HeadCount(data, x);
    }
  }

  lemma HeadCount(data: seq<nat>, x: nat)
    requires data != []
    ensures multiset(data)[x] == multiset(data[1..])[x] + if x == data[0] then 1 else 0
    ensures x in data <==> x == data[0] || x in data[1..]
  {
    assert data == [data[0]] + data[1..];
  }

  /** Whatever bytes were referenced so far: the sibling property holds, a byte has a
      leaf exactly when it occurred, and leaf weights are occurrence counts. */
  lemma SiblingPropertyAlways(data: seq<nat>)
    requires forall i :: 0 <= i < |data| ==> data[i] < 256
    ensures Inv(Seed)
    ensures var t := Learn(Seed, data);
      && Inv(t)
      && (forall x: nat :: Has(t, x) <==> x in data)
      && (forall i :: 0 <= i < |t| && t[i].kind.Leaf? ==>
            t[i].weight == multiset(data)[t[i].kind.symbol])
      && t[0].weight == |data|
  {
    SeedInv();
    var t := Learn(Seed, data);
    LearnCount(Seed, data, 0);
    forall x: nat ensures Has(t, x) <==> x in data {
      LearnCount(Seed, data, x);
    }
    forall i | 0 <= i < |t| && t[i].kind.Leaf?
      ensures t[i].weight == multiset(data)[t[i].kind.symbol]
    {
      FindIs(t, i, t[i].kind.symbol);
      LearnCount(Seed, data, t[i].kind.symbol);
    }
  }
}
