/** The walk computed from a parent-to-replies index built in one pass over
    the list, instead of rescanning the whole list at every level. It shows
    the same lines in the same order as the rescanning walk. */
module ThreadIndex {
  import opened Wrappers
  import opened Threads

  /** For each parent id (`None` for the post itself), its replies in list order. */
  type Index = map<Option<int>, seq<Comment>>

  function Replies(idx: Index, parent: Option<int>): seq<Comment> {
    if parent in idx then idx[parent] else []
  }

  /** `idx` lists, for every parent, exactly the replies to it in `cs`, in order. */
  ghost predicate Indexes(idx: Index, cs: seq<Comment>) {
    forall p :: Replies(idx, p) == Children(cs, p)
  }

  /** One step of the filter: the first comment, if it is a reply, then the
      replies among the others. */
  lemma ChildrenCons(x: Comment, ys: seq<Comment>, p: Option<int>)
    ensures Children([x] + ys, p) == (if x.parent == p then [x] else []) + Children(ys, p)
  {
    assert ([x] + ys)[0] == x && ([x] + ys)[1..] == ys;
  }

  lemma {:induction false} ChildrenSnoc(xs: seq<Comment>, c: Comment, p: Option<int>)
    ensures Children(xs + [c], p) == Children(xs, p) + (if c.parent == p then [c] else [])
  {
    if xs == [] {
      ChildrenCons(c, [], p);
      assert [] + [c] == [c] + [];
    } else {
      var x := xs[0];
      var head: seq<Comment> := if x.parent == p then [x] else [];
      var last: seq<Comment> := if c.parent == p then [c] else [];
      calc {
        Children(xs + [c], p);
        { assert xs + [c] == [x] + (xs[1..] + [c]);
          ChildrenCons(x, xs[1..] + [c], p); }
        head + Children(xs[1..] + [c], p);
        { ChildrenSnoc(xs[1..], c, p); }
        head + (Children(xs[1..], p) + last);
        (head + Children(xs[1..], p)) + last;
        { assert xs == [x] + xs[1..];
          ChildrenCons(x, xs[1..], p); }
        Children(xs, p) + last;
      }
    }
  }

  /** Appending a comment to its parent's replies indexes the longer list. */
  lemma IndexStep(idx: Index, xs: seq<Comment>, c: Comment)
    requires forall p :: Replies(idx, p) == Children(xs, p)
    ensures forall p :: Replies(idx[c.parent := Replies(idx, c.parent) + [c]], p) == Children(xs + [c], p)
  {
    var idx' := idx[c.parent := Replies(idx, c.parent) + [c]];
    forall p
      ensures Replies(idx', p) == Children(xs + [c], p)
    {
      ChildrenSnoc(xs, c, p);
    }
  }

  /** One pass over the list, appending each comment to its parent's replies. */
  method BuildIndex(cs: seq<Comment>) returns (idx: Index)
    ensures Indexes(idx, cs)
  {
    idx := map[];
    var i := 0;
    while i < |cs|
      invariant 0 <= i <= |cs|
      invariant forall p :: Replies(idx, p) == Children(cs[..i], p)
    {
      var c := cs[i];
      assert cs[..i + 1] == cs[..i] + [c];
      IndexStep(idx, cs[..i], c);
      idx := idx[c.parent := Replies(idx, c.parent) + [c]];
      i := i + 1;
    }
    assert cs[..i] == cs;
  }

  /** The walk over the index: the replies to `parent` from position `j` on,
      each followed by the walk of its own replies one level deeper. The list
      `cs` the index was built from is only used to justify termination. */
  function Render(idx: Index, ghost cs: seq<Comment>, parent: Option<int>, j: nat, level: nat): (r: seq<Line>)
    requires ParentsBelow(cs) && Indexes(idx, cs)
    requires j <= |Replies(idx, parent)|
    ensures forall ln :: ln in r ==> ln.comment in cs && ln.depth >= level
    decreases parent.None?, Gap(cs, parent), |Replies(idx, parent)| - j
  {
    var ks := Replies(idx, parent);
    if j == |ks| then []
    else
      assert ks[j] in Children(cs, parent);
      [Line(ks[j], level)] + Render(idx, cs, Some(ks[j].id), 0, level + 1) + Render(idx, cs, parent, j + 1, level)
  }

  /** The blocks from position `j` on: the block of the `j`-th comment, then
      the rest. */
  lemma BlocksFrom(cs: seq<Comment>, ks: seq<Comment>, j: nat, level: nat)
    requires ParentsBelow(cs)
    requires forall c :: c in ks ==> c in cs
    requires j < |ks|
    ensures Blocks(cs, ks[j..], level)
         == [Line(ks[j], level)] + Walk(cs, Some(ks[j].id), level + 1) + Blocks(cs, ks[j + 1..], level)
  {
    assert ks[j..][0] == ks[j] && ks[j..][1..] == ks[j + 1..];
  }

  /** The index walk of the replies below one reply is the rescanning walk. */
  lemma RenderBelow(idx: Index, cs: seq<Comment>, parent: Option<int>, k: Comment, level: nat)
    requires ParentsBelow(cs) && Indexes(idx, cs)
    requires k in Children(cs, parent)
    ensures Render(idx, cs, Some(k.id), 0, level + 1) == Walk(cs, Some(k.id), level + 1)
    decreases parent.None?, Gap(cs, parent), 0
  {
    RenderIsBlocks(idx, cs, Some(k.id), 0, level + 1);
    WalkLayout(cs, Some(k.id), level + 1);
    assert Replies(idx, Some(k.id))[0..] == Children(cs, Some(k.id));
  }

  lemma RenderIsBlocks(idx: Index, cs: seq<Comment>, parent: Option<int>, j: nat, level: nat)
    requires ParentsBelow(cs) && Indexes(idx, cs)
    requires j <= |Replies(idx, parent)|
    ensures Render(idx, cs, parent, j, level) == Blocks(cs, Replies(idx, parent)[j..], level)
    decreases parent.None?, Gap(cs, parent), |Replies(idx, parent)| - j + 1
  {
    var ks := Replies(idx, parent);
    assert ks == Children(cs, parent);
    if j < |ks| {
      var k := ks[j];
      assert k in Children(cs, parent);
      RenderBelow(idx, cs, parent, k, level);
      RenderIsBlocks(idx, cs, parent, j + 1, level);
      BlocksFrom(cs, ks, j, level);
    }
  }

  /** The walk over the index agrees with the rescanning walk, for every
      target and level. */
  lemma RenderAgrees(idx: Index, cs: seq<Comment>, parent: Option<int>, level: nat)
    requires ParentsBelow(cs) && Indexes(idx, cs)
    ensures Render(idx, cs, parent, 0, level) == Walk(cs, parent, level)
  {
    RenderIsBlocks(idx, cs, parent, 0, level);
    WalkLayout(cs, parent, level);
    assert Replies(idx, parent)[0..] == Children(cs, parent);
  }

  /** The comment tree of a post: build the index once, then walk it. */
  method ThreadComments(cs: seq<Comment>) returns (lines: seq<Line>)
    requires ParentsBelow(cs)
    ensures lines == Walk(cs, None, 0)
  {
    var idx := BuildIndex(cs);
    lines := Render(idx, cs, None, 0, 0);
    RenderAgrees(idx, cs, None, 0);
  }
}
