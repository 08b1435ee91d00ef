/**
 * `add_dropout_rec` and `add_dropout`: a dropout layer is put after every
 * convolution and fully connected layer of a network's module tree, except in
 * the first feature stage.
 */
module DropoutInjection {

  /**
   * A node of a PyTorch module tree. Convolutions and fully connected layers
   * are leaves; every other module (a `Sequential`, a dense block, a batch
   * norm, a ReLU, ...) is a `Node` with its kind and its named children in
   * registration order, possibly none.
   */
  datatype Module =
    | Conv2d(inChannels: nat, outChannels: nat)
    | Linear(inFeatures: nat, outFeatures: nat)
    | Dropout(p: real)
    | Node(kind: string, children: seq<(string, Module)>)

  /** The layers that receive a dropout: `isinstance(module, (Conv2d, Linear))`. */
  predicate IsTarget(m: Module)
  {
    m.Conv2d? || m.Linear?
  }

  /** `nn.Sequential(m, nn.Dropout(p))`: PyTorch names the two children "0" and "1". */
  function Wrapped(m: Module, p: real): Module
  {
    Node("Sequential", [("0", m), ("1", Dropout(p))])
  }

  /** Whether `m` has the shape `Wrapped` builds around a target layer, with probability `p`. */
  predicate IsWrapper(m: Module, p: real)
  {
    m.Node? && m.kind == "Sequential" && |m.children| == 2
    && m.children[0].0 == "0" && IsTarget(m.children[0].1)
    && m.children[1] == ("1", Dropout(p))
  }

  /**
   * What `add_dropout_rec(m, p)` turns `m` into: a target layer comes back
   * wrapped, without being looked into; any other module comes back itself,
   * never wrapped, with its kind and its child names in their order, each
   * child rewritten.
   */
  function WithDropout(m: Module, p: real): (r: Module)
    ensures !IsTarget(r)
    ensures m.Node? ==>
      (r.Node? && r.kind == m.kind && |r.children| == |m.children|
       && forall i :: 0 <= i < |m.children| ==> r.children[i].0 == m.children[i].0)
    decreases m
  {
    match m
    case Conv2d(_, _) => Wrapped(m, p)
    case Linear(_, _) => Wrapped(m, p)
    case Dropout(_) => m
    case Node(kind, cs) =>
      Node(kind, seq(|cs|, i requires 0 <= i < |cs| => (cs[i].0, WithDropout(cs[i].1, p))))
  }

  /**
   * `add_dropout_rec(module, p)`: a target is returned wrapped; otherwise each
   * entry of the module's child table is replaced, in order, by its rewritten
   * version, and the module itself is returned.
   */
  method AddDropoutRec(m: Module, p: real) returns (r: Module)
    ensures r == WithDropout(m, p)
    decreases m
  {
    if IsTarget(m) {
      return Wrapped(m, p);
    }
    if m.Node? {
      var cs := m.children;
      var modules := cs;
      for i := 0 to |cs|
        invariant |modules| == |cs|
        invariant forall j :: 0 <= j < i ==> modules[j] == (cs[j].0, WithDropout(cs[j].1, p))
        invariant forall j :: i <= j < |cs| ==> modules[j] == cs[j]
      {
        var child := AddDropoutRec(cs[i].1, p);
        modules := modules[i := (cs[i].0, child)];
      }
      return Node(m.kind, modules);
    }
    return m;
  }

  /** The sum of a list of counts. */
  function Sum(xs: seq<nat>): nat
  {
    if xs == [] then 0 else xs[0] + Sum(xs[1..])
  }

  /** Summing pointwise sums is summing each side. */
  lemma {:induction false} SumPointwise(a: seq<nat>, b: seq<nat>, c: seq<nat>)
    requires |a| == |b| == |c|
    requires forall i :: 0 <= i < |a| ==> a[i] == b[i] + c[i]
    ensures Sum(a) == Sum(b) + Sum(c)
  {
    if a != [] {
      SumPointwise(a[1..], b[1..], c[1..]);
    }
  }

  /** Lists of counts that agree everywhere have the same sum. */
  lemma {:induction false} SumSame(a: seq<nat>, b: seq<nat>)
    requires |a| == |b|
    requires forall i :: 0 <= i < |a| ==> a[i] == b[i]
    ensures Sum(a) == Sum(b)
  {
    if a != [] {
      SumSame(a[1..], b[1..]);
    }
  }

  /** A sum is zero only when every count is. */
  lemma {:induction false} SumZero(xs: seq<nat>)
    requires Sum(xs) == 0
    ensures forall i :: 0 <= i < |xs| ==> xs[i] == 0
  {
    if xs != [] {
      SumZero(xs[1..]);
      forall i | 1 <= i < |xs| ensures xs[i] == 0 {
        assert xs[i] == xs[1..][i - 1];
      }
    }
  }

  /** The number of convolutions and fully connected layers in the tree. */
  function Targets(m: Module): nat
  {
    match m
    case Conv2d(_, _) => 1
    case Linear(_, _) => 1
    case Dropout(_) => 0
    case Node(_, cs) => Sum(seq(|cs|, i requires 0 <= i < |cs| => Targets(cs[i].1)))
  }

  /** The number of dropout layers in the tree. */
  function Dropouts(m: Module): nat
  {
    match m
    case Dropout(_) => 1
    case Node(_, cs) => Sum(seq(|cs|, i requires 0 <= i < |cs| => Dropouts(cs[i].1)))
    case _ => 0
  }

  /**
   * No target layer is left bare: each one sits as the first child of a
   * wrapper whose dropout has probability `p`.
   */
  predicate AllTargetsWrapped(m: Module, p: real)
  {
    match m
    case Node(_, cs) =>
      IsWrapper(m, p) || forall i :: 0 <= i < |cs| ==> AllTargetsWrapped(cs[i].1, p)
    case Dropout(_) => true
    case _ => false
  }

  /**
   * The rewrite adds one dropout per target layer, and keeps every target
   * layer: it neither drops nor duplicates one.
   */
  lemma {:induction false} DropoutCount(m: Module, p: real)
    ensures Dropouts(WithDropout(m, p)) == Dropouts(m) + Targets(m)
    ensures Targets(WithDropout(m, p)) == Targets(m)
    decreases m
  {
    match m
    case Node(kind, cs) =>
      var r := WithDropout(m, p);
      forall i | 0 <= i < |cs|
        ensures Dropouts(WithDropout(cs[i].1, p)) == Dropouts(cs[i].1) + Targets(cs[i].1)
        ensures Targets(WithDropout(cs[i].1, p)) == Targets(cs[i].1)
      {
        DropoutCount(cs[i].1, p);
      }
      SumPointwise(
        seq(|cs|, i requires 0 <= i < |cs| => Dropouts(r.children[i].1)),
        seq(|cs|, i requires 0 <= i < |cs| => Dropouts(cs[i].1)),
        seq(|cs|, i requires 0 <= i < |cs| => Targets(cs[i].1)));
      SumSame(
        seq(|cs|, i requires 0 <= i < |cs| => Targets(r.children[i].1)),
        seq(|cs|, i requires 0 <= i < |cs| => Targets(cs[i].1)));
    case Dropout(_) =>
    case _ =>
      WrappedCounts(m, p);
  }

  /** A wrapper holds one target layer and one dropout. */
  lemma WrappedCounts(m: Module, p: real)
    requires IsTarget(m)
    ensures Dropouts(Wrapped(m, p)) == 1 && Targets(Wrapped(m, p)) == 1
  {
    var cs := Wrapped(m, p).children;
    assert seq(|cs|, i requires 0 <= i < |cs| => Dropouts(cs[i].1)) == [0, 1];
    assert seq(|cs|, i requires 0 <= i < |cs| => Targets(cs[i].1)) == [1, 0];
    SumPair(0, 1);
    SumPair(1, 0);
  }

  lemma SumPair(a: nat, b: nat)
    ensures Sum([a, b]) == a + b
  {
    var one: seq<nat> := [b];
    assert one[1..] == [];
    assert Sum(one) == b;
    assert [a, b][1..] == one;
  }

  /** After the rewrite every target layer is wrapped. */
  lemma {:induction false} TargetsAllWrapped(m: Module, p: real)
    ensures AllTargetsWrapped(WithDropout(m, p), p)
    decreases m
  {
    match m
    case Node(kind, cs) =>
      forall i | 0 <= i < |cs| ensures AllTargetsWrapped(WithDropout(cs[i].1, p), p) {
        TargetsAllWrapped(cs[i].1, p);
      }
    case _ =>
  }

  /** A tree without target layers comes back unchanged. */
  lemma {:induction false} NoTargetsUnchanged(m: Module, p: real)
    requires Targets(m) == 0
    ensures WithDropout(m, p) == m
    decreases m
  {
    match m
    case Node(kind, cs) =>
      var counts := seq(|cs|, i requires 0 <= i < |cs| => Targets(cs[i].1));
      SumZero(counts);
      forall i | 0 <= i < |cs| ensures WithDropout(cs[i].1, p) == cs[i].1 {
        assert counts[i] == 0;
        NoTargetsUnchanged(cs[i].1, p);
      }
      assert WithDropout(m, p).children == cs;
    case _ =>
  }

  /** A second run wraps every target layer again, so the rewrite is not idempotent. */
  lemma NotIdempotent(m: Module, p: real)
    requires Targets(m) > 0
    ensures Dropouts(WithDropout(WithDropout(m, p), p)) == Dropouts(m) + 2 * Targets(m)
    ensures WithDropout(WithDropout(m, p), p) != WithDropout(m, p)
  {
    DropoutCount(m, p);
    DropoutCount(WithDropout(m, p), p);
  }

  /** Takes every wrapper with probability `p` off again: the inverse of the rewrite. */
  function Unwrap(m: Module, p: real): Module
    decreases m
  {
    if IsWrapper(m, p) then m.children[0].1
    else match m
      case Node(kind, cs) =>
        Node(kind, seq(|cs|, i requires 0 <= i < |cs| => (cs[i].0, Unwrap(cs[i].1, p))))
      case _ => m
  }

  /**
   * The rewrite only adds wrappers: taking them off gives back the original
   * tree, target layers unmodified and in place.
   */
  lemma {:induction false} UnwrapWithDropout(m: Module, p: real)
    ensures Unwrap(WithDropout(m, p), p) == m
    decreases m
  {
    match m
    case Node(kind, cs) =>
      var r := WithDropout(m, p);
      assert !IsWrapper(r, p) by {
        if |cs| == 2 {
          assert !IsTarget(r.children[0].1);
        }
      }
      forall i | 0 <= i < |cs| ensures Unwrap(WithDropout(cs[i].1, p), p) == cs[i].1 {
        UnwrapWithDropout(cs[i].1, p);
      }
      assert Unwrap(r, p).children == cs;
    case _ =>
  }

  /** The name of the first feature stage, which `add_dropout` leaves alone. */
  const FirstStage: string := "conv0"

  /** What `add_dropout` does to one named child of `features`. */
  function StageWithDropout(stage: (string, Module), p: real): (string, Module)
  {
    if stage.0 == FirstStage then stage else (stage.0, WithDropout(stage.1, p))
  }

  /**
   * What `add_dropout` turns `features` into: every child but the first stage
   * rewritten, the first stage untouched. A `features` without children (a
   * bare layer) is left as it is.
   */
  function FeaturesWithDropout(f: Module, p: real): (r: Module)
    ensures f.Node? ==> r.Node? && r.kind == f.kind && |r.children| == |f.children|
    ensures f.Node? ==> forall i :: 0 <= i < |f.children| && f.children[i].0 == FirstStage ==>
      r.children[i] == f.children[i]
    ensures !f.Node? ==> r == f
  {
    match f
    case Node(kind, cs) =>
      Node(kind, seq(|cs|, i requires 0 <= i < |cs| => StageWithDropout(cs[i], p)))
    case _ => f
  }

  /** The target layers of `features` outside the first stage. */
  function TargetsOutsideFirstStage(f: Module): nat
  {
    match f
    case Node(_, cs) =>
      Sum(seq(|cs|, i requires 0 <= i < |cs| => if cs[i].0 == FirstStage then 0 else Targets(cs[i].1)))
    case _ => 0
  }

  /** `add_dropout` adds one dropout per target layer of `features` outside the first stage. */
  lemma FeaturesDropoutCount(f: Module, p: real)
    ensures Dropouts(FeaturesWithDropout(f, p)) == Dropouts(f) + TargetsOutsideFirstStage(f)
  {
    match f
    case Node(kind, cs) =>
      var r := FeaturesWithDropout(f, p);
      forall i | 0 <= i < |cs|
        ensures Dropouts(r.children[i].1) == Dropouts(cs[i].1)
          + (if cs[i].0 == FirstStage then 0 else Targets(cs[i].1))
      {
        DropoutCount(cs[i].1, p);
      }
      SumPointwise(
        seq(|cs|, i requires 0 <= i < |cs| => Dropouts(r.children[i].1)),
        seq(|cs|, i requires 0 <= i < |cs| => Dropouts(cs[i].1)),
        seq(|cs|, i requires 0 <= i < |cs| => if cs[i].0 == FirstStage then 0 else Targets(cs[i].1)));
    case _ =>
  }

  /** The two parts of a DenseNet that `add_dropout` rewrites. */
  class Net {
    var features: Module
    var classifier: Module

    constructor(features: Module, classifier: Module)
      ensures this.features == features && this.classifier == classifier
    {
      this.features := features;
      this.classifier := classifier;
    }

    /** How many dropout layers the two parts hold. */
    function DropoutTotal(): nat
      reads this
    {
      Dropouts(features) + Dropouts(classifier)
    }

    /**
     * `add_dropout(net, p=0.1)`: each child of `features` but `conv0` is replaced
     * in place by its rewritten version, then `classifier` by its rewritten
     * version.
     */
    method AddDropout(p: real := 0.1)
      modifies this
      ensures features == FeaturesWithDropout(old(features), p)
      ensures classifier == WithDropout(old(classifier), p)
      ensures DropoutTotal() == old(DropoutTotal())
        + TargetsOutsideFirstStage(old(features)) + Targets(old(classifier))
    {
      if features.Node? {
        var cs := features.children;
        for i := 0 to |cs|
          invariant features.Node? && features.kind == old(features).kind
          invariant |features.children| == |cs|
          invariant forall j :: 0 <= j < i ==> features.children[j] == StageWithDropout(cs[j], p)
          invariant forall j :: i <= j < |cs| ==> features.children[j] == cs[j]
          invariant classifier == old(classifier)
        {
          var (name, stage) := cs[i];
          if name != FirstStage {
            var rewritten := AddDropoutRec(stage, p);
            features := features.(children := features.children[i := (name, rewritten)]);
          }
        }
        assert features.children == FeaturesWithDropout(old(features), p).children;
      }
      classifier := AddDropoutRec(classifier, p);
      FeaturesDropoutCount(old(features), p);
      DropoutCount(old(classifier), p);
    }
  }
}
