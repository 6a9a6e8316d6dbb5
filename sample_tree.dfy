/** sample_tree: a morphology stored as three parallel lists (samples, parent
    indices and per-point property bits) that only ever grows by appending
    a sample below an existing one. */
module SampleTree {
  import opened Wrappers

  /** mnpos, the parent of the root: the largest 32-bit msize_t. */
  const MNPOS: nat := 0xFFFF_FFFF

  datatype Point = Point(x: real, y: real, z: real, radius: real)
  datatype Sample = Sample(loc: Point, tag: int)

  /** The four bits of point_prop. */
  datatype Props = Props(root: bool, terminal: bool, fork: bool, collocated: bool)

  const NoProps: Props := Props(false, false, false, false)

  /** The morphology_error and runtime_error cases the operations throw. */
  datatype MorphError = RootParentNotNpos | ParentNotBefore | SizeMismatch

  datatype Tree = Tree(samples: seq<Sample>, parents: seq<nat>, props: seq<Props>)

  const Empty: Tree := Tree([], [], [])

  predicate Shaped(t: Tree) {
    |t.samples| == |t.parents| == |t.props|
  }

  /** append(p, s): the parent must be mnpos for the root and an existing
      sample otherwise. The new sample is the root or a collocated-or-not
      terminal; its parent stops being terminal and becomes a fork if it is
      not the root and already had a child. */
  function AppendSample(t: Tree, p: nat, s: Sample, colloc: (Sample, Sample) -> bool): Result<Tree, MorphError>
    requires Shaped(t)
  {
    var n := |t.samples|;
    if n == 0 && p != MNPOS then Failure(RootParentNotNpos)
    else if n > 0 && p >= n then Failure(ParentNotBefore)
    else if n == 0 then Success(Tree([s], [p], [NoProps.(root := true)]))
    else
      var was := t.props[p];
      var parent := was.(terminal := false, fork := was.fork || (p != 0 && !was.terminal));
      var prop := NoProps.(terminal := true, collocated := colloc(s, t.samples[p]));
      Success(Tree(t.samples + [s], t.parents + [p], t.props[p := parent] + [prop]))
  }

  /** Some sample after the root has parent `i`. */
  predicate HasChild(parents: seq<nat>, i: nat) {
    exists j :: 1 <= j < |parents| && parents[j] == i
  }

  predicate HasTwoChildren(parents: seq<nat>, i: nat) {
    exists j, k :: 1 <= j < k < |parents| && parents[j] == i && parents[k] == i
  }

  /** The parent indices of a sample tree: mnpos for the root, an earlier
      sample for every other one. */
  predicate ValidParents(parents: seq<nat>) {
    && (|parents| > 0 ==> parents[0] == MNPOS)
    && (forall i :: 1 <= i < |parents| ==> parents[i] < i)
  }

  /** What the property bits mean: the root bit marks sample 0, the terminal
      bit a non-root sample without children, the fork bit a non-root sample
      with at least two, and the collocated bit a non-root sample collocated
      with its parent. */
  predicate WellFormed(t: Tree, colloc: (Sample, Sample) -> bool) {
    && Shaped(t)
    && ValidParents(t.parents)
    && (forall i :: 0 <= i < |t.props| ==> (t.props[i].root <==> i == 0))
    && (forall i :: 0 <= i < |t.props| ==> (t.props[i].terminal <==> i > 0 && !HasChild(t.parents, i)))
    && (forall i :: 0 <= i < |t.props| ==> (t.props[i].fork <==> i > 0 && HasTwoChildren(t.parents, i)))
    && (forall i :: 0 <= i < |t.props| ==>
          (t.props[i].collocated <==> i > 0 && colloc(t.samples[i], t.samples[t.parents[i]])))
  }

  /** append fails exactly when the parent is not mnpos for the first
      sample or not an existing sample afterwards; a failure changes
      nothing, a success adds `s` below `p` and touches no property bits but
      those of `p` and of the new sample. */
  lemma AppendOutcome(t: Tree, p: nat, s: Sample, colloc: (Sample, Sample) -> bool)
    requires Shaped(t)
    ensures AppendSample(t, p, s, colloc).Failure? <==>
      (|t.samples| == 0 && p != MNPOS) || (|t.samples| > 0 && p >= |t.samples|)
    ensures AppendSample(t, p, s, colloc).Success? ==>
      var t' := AppendSample(t, p, s, colloc).value;
      && Shaped(t')
      && t'.samples == t.samples + [s] && t'.parents == t.parents + [p]
      && (forall i :: 0 <= i < |t.props| && i != p ==> t'.props[i] == t.props[i])
      && (|t.samples| == 0 ==> t'.props[0] == NoProps.(root := true))
  {
  }

  lemma ChildrenAfterAppend(parents: seq<nat>, p: nat, i: nat)
    ensures HasChild(parents + [p], i) <==> HasChild(parents, i) || (i == p && |parents| >= 1)
    ensures HasTwoChildren(parents + [p], i) <==> HasTwoChildren(parents, i) || (i == p && |parents| >= 1 && HasChild(parents, i))
  {
    var q := parents + [p];
    if HasChild(q, i) && !(i == p && |parents| >= 1) {
      var j :| 1 <= j < |q| && q[j] == i;
      assert parents[j] == i;
    }
    if HasChild(parents, i) {
      var j :| 1 <= j < |parents| && parents[j] == i;
      assert q[j] == i;
    }
    if i == p && |parents| >= 1 {
      assert q[|parents|] == i;
    }
    if HasTwoChildren(q, i) {
      var j, k :| 1 <= j < k < |q| && q[j] == i && q[k] == i;
      if k < |parents| {
        assert parents[j] == i && parents[k] == i;
      } else {
        assert parents[j] == i;
      }
    }
    if HasTwoChildren(parents, i) {
      var j, k :| 1 <= j < k < |parents| && parents[j] == i && parents[k] == i;
      assert q[j] == i && q[k] == i;
    }
    if i == p && |parents| >= 1 && HasChild(parents, i) {
      var j :| 1 <= j < |parents| && parents[j] == i;
      assert q[j] == i && q[|parents|] == i;
    }
  }

  lemma NoChildBeyond(parents: seq<nat>, n: nat)
    requires ValidParents(parents) && n >= |parents|
    ensures !HasChild(parents, n)
  {
  }

  /** append keeps the meaning of every property bit. */
  lemma AppendWellFormed(t: Tree, p: nat, s: Sample, colloc: (Sample, Sample) -> bool)
    requires WellFormed(t, colloc) && AppendSample(t, p, s, colloc).Success?
    ensures WellFormed(AppendSample(t, p, s, colloc).value, colloc)
  {
    var t' := AppendSample(t, p, s, colloc).value;
    var n := |t.samples|;
    if n > 0 {
      forall i | 0 <= i < |t'.props|
        ensures (t'.props[i].terminal <==> i > 0 && !HasChild(t'.parents, i))
        ensures (t'.props[i].fork <==> i > 0 && HasTwoChildren(t'.parents, i))
      {
        ChildrenAfterAppend(t.parents, p, i);
        if i == n {
          NoChildBeyond(t.parents, n);
        }
      }
      forall i | 0 <= i < |t'.props|
        ensures (t'.props[i].collocated <==> i > 0 && colloc(t'.samples[i], t'.samples[t'.parents[i]]))
      {
        if 0 < i < n {
          assert t'.samples[t'.parents[i]] == t.samples[t.parents[i]];
        }
      }
    }
  }

  /** The list append, p = append(p, s) for each sample in turn: each
      sample hangs below the previous one; the last id is returned. */
  function Chain(t: Tree, p: nat, slist: seq<Sample>, colloc: (Sample, Sample) -> bool): (Tree, Result<nat, MorphError>)
    requires Shaped(t)
    decreases |slist|
  {
    if slist == [] then (t, Success(p))
    else match AppendSample(t, p, slist[0], colloc)
      case Failure(e) => (t, Failure(e))
      case Success(t1) => Chain(t1, |t.samples|, slist[1..], colloc)
  }

  /** append(p, slist): an empty list appends nothing and returns size(). */
  function AppendList(t: Tree, p: nat, slist: seq<Sample>, colloc: (Sample, Sample) -> bool): (Tree, Result<nat, MorphError>)
    requires Shaped(t)
  {
    if slist == [] then (t, Success(|t.samples|)) else Chain(t, p, slist, colloc)
  }

  /** The parentless forms hang below the last sample, or start the tree. */
  function LastOrNpos(t: Tree): nat {
    if |t.samples| == 0 then MNPOS else |t.samples| - 1
  }

  /** The samples n, n+1, ... of a chain that starts at sample n. */
  function Run(n: nat, len: nat): (r: seq<nat>)
    decreases len
    ensures |r| == len && forall i :: 0 <= i < len ==> r[i] == n + i
  {
    if len == 0 then [] else [n] + Run(n + 1, len - 1)
  }

  /** A chain fails only at its first sample, and then leaves the tree as
      it was; otherwise it appends the whole list, the first sample below
      `p` and each other below its predecessor, and returns the last id. */
  lemma {:induction false} ChainMeaning(t: Tree, p: nat, slist: seq<Sample>, colloc: (Sample, Sample) -> bool)
    requires Shaped(t) && slist != []
    ensures Chain(t, p, slist, colloc).1.Failure? <==> AppendSample(t, p, slist[0], colloc).Failure?
    ensures Chain(t, p, slist, colloc).1.Failure? ==> Chain(t, p, slist, colloc).0 == t
    ensures Chain(t, p, slist, colloc).1.Success? ==>
      && Chain(t, p, slist, colloc).0.samples == t.samples + slist
      && Chain(t, p, slist, colloc).0.parents == t.parents + [p] + Run(|t.samples|, |slist| - 1)
      && Chain(t, p, slist, colloc).1.value == |t.samples| + |slist| - 1
    decreases |slist|
  {
    AppendOutcome(t, p, slist[0], colloc);
    if AppendSample(t, p, slist[0], colloc).Success? {
      var t1 := AppendSample(t, p, slist[0], colloc).value;
      var n := |t.samples|;
      if |slist| > 1 {
        ChainMeaning(t1, n, slist[1..], colloc);
        AppendOutcome(t1, n, slist[1..][0], colloc);
        assert AppendSample(t1, n, slist[1..][0], colloc).Success?;
        assert t.samples + [slist[0]] + slist[1..] == t.samples + slist;
        assert Run(n, |slist| - 1) == [n] + Run(n + 1, |slist| - 2);
      } else {
        assert slist == [slist[0]];
      }
    }
  }

  /** A chain keeps the meaning of the property bits. */
  lemma {:induction false} ChainWellFormed(t: Tree, p: nat, slist: seq<Sample>, colloc: (Sample, Sample) -> bool)
    requires WellFormed(t, colloc)
    ensures WellFormed(Chain(t, p, slist, colloc).0, colloc)
    decreases |slist|
  {
    if slist != [] && AppendSample(t, p, slist[0], colloc).Success? {
      AppendWellFormed(t, p, slist[0], colloc);
      ChainWellFormed(AppendSample(t, p, slist[0], colloc).value, |t.samples|, slist[1..], colloc);
    }
  }

  /** The constructor: equal lengths, then the pairs appended in order. */
  function Build(ss: seq<Sample>, ps: seq<nat>, colloc: (Sample, Sample) -> bool): (r: Result<Tree, MorphError>)
    ensures r.Success? ==> Shaped(r.value)
    decreases |ss|
  {
    if |ss| != |ps| then Failure(SizeMismatch)
    else if ss == [] then Success(Empty)
    else Then(Build(ss[..|ss| - 1], ps[..|ps| - 1], colloc), ps[|ps| - 1], ss[|ss| - 1], colloc)
  }

  /** One more append after a construction prefix; a thrown error stops it. */
  function Then(r: Result<Tree, MorphError>, p: nat, s: Sample, colloc: (Sample, Sample) -> bool): (r': Result<Tree, MorphError>)
    requires r.Success? ==> Shaped(r.value)
    ensures r'.Success? ==> Shaped(r'.value)
  {
    match r
    case Failure(e) => Failure(e)
    case Success(t) => AppendSample(t, p, s, colloc)
  }

  lemma ThenOutcome(r: Result<Tree, MorphError>, p: nat, s: Sample, colloc: (Sample, Sample) -> bool, ss: seq<Sample>, ps: seq<nat>)
    requires r.Success? && Shaped(r.value) && r.value.samples == ss && r.value.parents == ps
    ensures Then(r, p, s, colloc).Success? <==> (if ps == [] then p == MNPOS else p < |ps|)
    ensures Then(r, p, s, colloc).Success? ==>
      Then(r, p, s, colloc).value.samples == ss + [s] && Then(r, p, s, colloc).value.parents == ps + [p]
  {
    AppendOutcome(r.value, p, s, colloc);
  }

  /** Construction succeeds exactly for equal lengths and a valid parent
      list, and then holds the given samples and parents. */
  lemma {:induction false} BuildOutcome(ss: seq<Sample>, ps: seq<nat>, colloc: (Sample, Sample) -> bool)
    ensures Build(ss, ps, colloc).Success? <==> |ss| == |ps| && ValidParents(ps)
    ensures Build(ss, ps, colloc).Success? ==>
      Build(ss, ps, colloc).value.samples == ss && Build(ss, ps, colloc).value.parents == ps
    decreases |ss|
  {
    if |ss| == |ps| && ss != [] {
      var ss', ps' := ss[..|ss| - 1], ps[..|ps| - 1];
      BuildOutcome(ss', ps', colloc);
      ValidParentsSnoc(ps);
      if Build(ss', ps', colloc).Success? {
        ThenOutcome(Build(ss', ps', colloc), ps[|ps| - 1], ss[|ss| - 1], colloc, ss', ps');
        assert ss' + [ss[|ss| - 1]] == ss && ps' + [ps[|ps| - 1]] == ps;
      }
    }
  }

  lemma ValidParentsSnoc(ps: seq<nat>)
    requires ps != []
    ensures ValidParents(ps) <==>
      (ValidParents(ps[..|ps| - 1]) && (if |ps| == 1 then ps[0] == MNPOS else ps[|ps| - 1] < |ps| - 1))
  {
    var ps' := ps[..|ps| - 1];
    assert forall i :: 0 <= i < |ps'| ==> ps'[i] == ps[i];
  }

  /** A constructed tree's property bits have their meaning. */
  lemma {:induction false} BuildWellFormed(ss: seq<Sample>, ps: seq<nat>, colloc: (Sample, Sample) -> bool)
    requires Build(ss, ps, colloc).Success?
    ensures WellFormed(Build(ss, ps, colloc).value, colloc)
    decreases |ss|
  {
    if ss != [] {
      var ss', ps' := ss[..|ss| - 1], ps[..|ps| - 1];
      BuildWellFormed(ss', ps', colloc);
      AppendWellFormed(Build(ss', ps', colloc).value, ps[|ps| - 1], ss[|ss| - 1], colloc);
    }
  }

  /** Sample i of the tree of test_morphology.cpp with the given parents:
      not collocated, as the test builds it at z = i. */
  const ForkParents: seq<nat> := [MNPOS, 0, 1, 2, 3, 2, 4, 4, 7]

  /** The bits each sample should carry, read off the parent list. */
  function PropsFrom(parents: seq<nat>, samples: seq<Sample>, colloc: (Sample, Sample) -> bool): (r: seq<Props>)
    requires |samples| == |parents| && ValidParents(parents)
    ensures |r| == |parents|
  {
    seq(|parents|, i requires 0 <= i < |parents| =>
      Props(i == 0, i > 0 && !HasChild(parents, i), i > 0 && HasTwoChildren(parents, i),
        i > 0 && colloc(samples[i], samples[parents[i]])))
  }

  /** The property bits of a well-formed tree are determined by its samples
      and parent list. */
  lemma PropsDetermined(t: Tree, colloc: (Sample, Sample) -> bool)
    requires WellFormed(t, colloc)
    ensures t.props == PropsFrom(t.parents, t.samples, colloc)
  {
  }

  /** A constructed tree carries the bits read off its parent list. */
  lemma BuildProps(ss: seq<Sample>, ps: seq<nat>, colloc: (Sample, Sample) -> bool)
    requires |ss| == |ps| && ValidParents(ps)
    ensures Build(ss, ps, colloc).Success? && Build(ss, ps, colloc).value.props == PropsFrom(ps, ss, colloc)
  {
    BuildOutcome(ss, ps, colloc);
    BuildWellFormed(ss, ps, colloc);
    PropsDetermined(Build(ss, ps, colloc).value, colloc);
  }

  lemma ForkValid()
    ensures ValidParents(ForkParents)
  {
  }

  lemma ForkChildren()
    ensures HasTwoChildren(ForkParents, 2) && HasTwoChildren(ForkParents, 4)
    ensures HasChild(ForkParents, 1) && HasChild(ForkParents, 3) && HasChild(ForkParents, 7)
    ensures !HasChild(ForkParents, 5) && !HasChild(ForkParents, 6) && !HasChild(ForkParents, 8)
    ensures !HasTwoChildren(ForkParents, 1) && !HasTwoChildren(ForkParents, 3) && !HasTwoChildren(ForkParents, 7)
  {
    var P := ForkParents;
    assert P[3] == 2 && P[5] == 2 && P[6] == 4 && P[7] == 4;
    assert P[2] == 1 && P[4] == 3 && P[8] == 7;
  }

  /** The bits read off the fork parent list, none collocated. */
  lemma ForkProps(ss: seq<Sample>, colloc: (Sample, Sample) -> bool)
    requires |ss| == 9 && forall i :: 1 <= i < 9 ==> !colloc(ss[i], ss[ForkParents[i]])
    ensures PropsFrom(ForkParents, ss, colloc) == [Props(true, false, false, false), NoProps, Props(false, false, true, false), NoProps, Props(false, false, true, false), Props(false, true, false, false), Props(false, true, false, false), NoProps, Props(false, true, false, false)]
  {
    ForkChildren();
  }

  /** Built from that parent list with no sample collocated with its parent,
      the bits are r, s, f, s, f, t, t, s, t as the unit test expects. */
  lemma ForkExample(ss: seq<Sample>, colloc: (Sample, Sample) -> bool)
    requires |ss| == 9 && forall i :: 1 <= i < 9 ==> !colloc(ss[i], ss[ForkParents[i]])
    ensures Build(ss, ForkParents, colloc).Success?
    ensures Build(ss, ForkParents, colloc).value.props == [Props(true, false, false, false), NoProps, Props(false, false, true, false), NoProps, Props(false, false, true, false), Props(false, true, false, false), Props(false, true, false, false), NoProps, Props(false, true, false, false)]
  {
    ForkValid();
    BuildProps(ss, ForkParents, colloc);
    ForkProps(ss, colloc);
  }

  /** SWC records: identifier, structure tag, position, radius and parent. */
  datatype SwcRecord = SwcRecord(id: int, tag: int, x: real, y: real, z: real, r: real, parentId: int)

  /** The int parent id converted to the 32-bit unsigned msize_t. */
  function ToMsize(k: int): (r: nat)
    ensures r < 0x1_0000_0000 && (0 <= k < 0x1_0000_0000 ==> r == k) && (k == -1 ==> r == MNPOS)
  {
    k % 0x1_0000_0000
  }

  function SwcSamples(records: seq<SwcRecord>): (r: seq<Sample>)
    ensures |r| == |records|
  {
    seq(|records|, i requires 0 <= i < |records| =>
      Sample(Point(records[i].x, records[i].y, records[i].z, records[i].r), records[i].tag))
  }

  /** Record 0 is the root, whatever its parent field; the others keep theirs. */
  function SwcParents(records: seq<SwcRecord>): (r: seq<nat>)
    ensures |r| == |records|
  {
    seq(|records|, i requires 0 <= i < |records| => if i == 0 then MNPOS else ToMsize(records[i].parentId))
  }

  /** swc_as_sample_tree: one append per record, in order. */
  function FromSwc(records: seq<SwcRecord>, colloc: (Sample, Sample) -> bool): Result<Tree, MorphError> {
    Build(SwcSamples(records), SwcParents(records), colloc)
  }

  /** SWC conversion succeeds exactly when every record after the first
      names an earlier record as parent; -1 there becomes mnpos and fails. */
  lemma SwcMeaning(records: seq<SwcRecord>, colloc: (Sample, Sample) -> bool)
    ensures FromSwc(records, colloc).Success? <==>
      forall i :: 1 <= i < |records| ==> ToMsize(records[i].parentId) < i
    ensures FromSwc(records, colloc).Success? ==>
      && |FromSwc(records, colloc).value.samples| == |records|
      && (forall i :: 1 <= i < |records| ==> FromSwc(records, colloc).value.parents[i] == ToMsize(records[i].parentId))
  {
    BuildOutcome(SwcSamples(records), SwcParents(records), colloc);
    var ps := SwcParents(records);
    assert forall i :: 1 <= i < |records| ==> ps[i] == ToMsize(records[i].parentId);
  }

  /** The sample_tree object: the three lists grow together, and the
      property bits of a parent are updated in place. `colloc` stands for
      is_collocated. */
  class SampleTree {
    var samples: seq<Sample>
    var parents: seq<nat>
    var props: seq<Props>
    const colloc: (Sample, Sample) -> bool

    function State(): Tree
      reads this
    {
      Tree(samples, parents, props)
    }

    predicate Valid()
      reads this
    {
      WellFormed(State(), colloc)
    }

    function Size(): nat
      reads this
    {
      |samples|
    }

    function IsEmpty(): bool
      reads this
    {
      |samples| == 0
    }

    constructor (colloc: (Sample, Sample) -> bool)
      ensures State() == Empty && Valid() && this.colloc == colloc
    {
      samples, parents, props := [], [], [];
      this.colloc := colloc;
    }

    /** append(p, s): returns the new sample's id, or the error thrown. */
    method Append(p: nat, s: Sample) returns (r: Result<nat, MorphError>)
      requires Valid()
      modifies this
      ensures Valid()
      ensures AppendSample(old(State()), p, s, colloc).Failure? ==>
        r == Failure(AppendSample(old(State()), p, s, colloc).error) && State() == old(State())
      ensures AppendSample(old(State()), p, s, colloc).Success? ==>
        r == Success(old(Size())) && State() == AppendSample(old(State()), p, s, colloc).value
    {
      if IsEmpty() {
        if p != MNPOS {
          return Failure(RootParentNotNpos);
        }
      } else if p >= Size() {
        return Failure(ParentNotBefore);
      }
      AppendWellFormed(State(), p, s, colloc);
      var id := Size();
      Grow(p, s);
      r := Success(id);
    }

    /** The update of a successful append: push the sample and its parent,
        then set the new bits and adjust the parent's in place. */
    method Grow(p: nat, s: Sample)
      requires Shaped(State()) && AppendSample(State(), p, s, colloc).Success?
      modifies this
      ensures State() == AppendSample(old(State()), p, s, colloc).value
    {
      var id := Size();
      samples := samples + [s];
      parents := parents + [p];
      var prop := NoProps;
      if id == 0 {
        prop := prop.(root := true);
      } else {
        prop := prop.(terminal := true);
        var termParent := props[p].terminal;
        props := props[p := props[p].(terminal := false)];
        if colloc(s, samples[p]) {
          prop := prop.(collocated := true);
        }
        if p != 0 && !termParent {
          props := props[p := props[p].(fork := true)];
        }
      }
      props := props + [prop];
    }

    /** append(s): below the last sample, or as the root. */
    method AppendLast(s: Sample) returns (r: Result<nat, MorphError>)
      requires Valid()
      modifies this
      ensures Valid() && r == Success(old(Size()))
      ensures State() == AppendSample(old(State()), LastOrNpos(old(State())), s, colloc).value
    {
      AppendOutcome(State(), LastOrNpos(State()), s, colloc);
      r := Append(if IsEmpty() then MNPOS else Size() - 1, s);
    }

    /** append(p, slist): the samples chained below `p`. */
    method AppendSamples(p: nat, slist: seq<Sample>) returns (r: Result<nat, MorphError>)
      requires Valid()
      modifies this
      ensures Valid()
      ensures (State(), r) == AppendList(old(State()), p, slist, colloc)
    {
      if |slist| == 0 {
        return Success(Size());
      }
      var q := p;
      for i := 0 to |slist|
        invariant Valid()
        invariant Chain(State(), q, slist[i..], colloc) == Chain(old(State()), p, slist, colloc)
      {
        var step := Append(q, slist[i]);
        if step.Failure? {
          return Failure(step.error);
        }
        q := step.value;
        assert slist[i..][1..] == slist[i + 1..];
      }
      r := Success(q);
    }

    /** append(slist): the samples chained below the last sample. */
    method AppendSamplesLast(slist: seq<Sample>) returns (r: Result<nat, MorphError>)
      requires Valid()
      modifies this
      ensures Valid()
      ensures (State(), r) == AppendList(old(State()), LastOrNpos(old(State())), slist, colloc)
    {
      r := AppendSamples(if IsEmpty() then MNPOS else Size() - 1, slist);
    }
  }

  /** sample_tree(samples, parents): throws on a length mismatch or on the
      first invalid parent. */
  method Create(ss: seq<Sample>, ps: seq<nat>, colloc: (Sample, Sample) -> bool) returns (r: Result<SampleTree, MorphError>)
    ensures r.Success? <==> Build(ss, ps, colloc).Success?
    ensures r.Success? ==> fresh(r.value) && r.value.Valid() && r.value.State() == Build(ss, ps, colloc).value
    ensures r.Failure? ==> r.error == Build(ss, ps, colloc).error
  {
    if |ss| != |ps| {
      return Failure(SizeMismatch);
    }
    var t := new SampleTree(colloc);
    for i := 0 to |ss|
      invariant t.Valid() && t.colloc == colloc && fresh(t)
      invariant Build(ss[..i], ps[..i], colloc) == Success(t.State())
    {
      assert ss[..i + 1][..i] == ss[..i] && ps[..i + 1][..i] == ps[..i];
      var step := t.Append(ps[i], ss[i]);
      if step.Failure? {
        assert Build(ss[..i + 1], ps[..i + 1], colloc).Failure?;
        BuildPrefixFails(ss, ps, colloc, i + 1);
        return Failure(step.error);
      }
    }
    assert ss[..|ss|] == ss && ps[..|ps|] == ps;
    r := Success(t);
  }

  /** Once a prefix fails, the whole construction fails with its error. */
  lemma {:induction false} BuildPrefixFails(ss: seq<Sample>, ps: seq<nat>, colloc: (Sample, Sample) -> bool, k: nat)
    requires |ss| == |ps| && k <= |ss| && Build(ss[..k], ps[..k], colloc).Failure?
    ensures Build(ss, ps, colloc) == Build(ss[..k], ps[..k], colloc)
    decreases |ss| - k
  {
    if k < |ss| {
      assert ss[..k + 1][..k] == ss[..k] && ps[..k + 1][..k] == ps[..k];
      BuildPrefixFails(ss, ps, colloc, k + 1);
    } else {
      assert ss[..k] == ss && ps[..k] == ps;
    }
  }

  /** swc_as_sample_tree. */
  method SwcAsSampleTree(records: seq<SwcRecord>, colloc: (Sample, Sample) -> bool) returns (r: Result<SampleTree, MorphError>)
    ensures r.Success? <==> FromSwc(records, colloc).Success?
    ensures r.Success? ==> fresh(r.value) && r.value.Valid() && r.value.State() == FromSwc(records, colloc).value
  {
    var t := new SampleTree(colloc);
    ghost var ss, ps := SwcSamples(records), SwcParents(records);
    for i := 0 to |records|
      invariant t.Valid() && t.colloc == colloc && fresh(t)
      invariant Build(ss[..i], ps[..i], colloc) == Success(t.State())
    {
      assert ss[..i + 1][..i] == ss[..i] && ps[..i + 1][..i] == ps[..i];
      var rec := records[i];
      var p := if i == 0 then MNPOS else ToMsize(rec.parentId);
      var step := t.Append(p, Sample(Point(rec.x, rec.y, rec.z, rec.r), rec.tag));
      if step.Failure? {
        BuildPrefixFails(ss, ps, colloc, i + 1);
        return Failure(step.error);
      }
    }
    assert ss[..|ss|] == ss && ps[..|ps|] == ps;
    r := Success(t);
  }
}
