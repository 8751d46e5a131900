/** The threaded comment walk of the forum page (`display_comments`).

    The comments of one post arrive as a flat list, in the order the query
    returned them (ascending creation time). Starting from "no parent" at
    level 0, the walk scans the whole list; every comment whose parent is the
    current target is emitted at the current level and is immediately
    followed by the walk of its own replies one level deeper, rescanning the
    same full list. The output is the pre-order traversal of the reply
    forest, as (comment, indentation level) lines. */
module Threads {
  import opened Wrappers

  /** A comment row: its key, the post and author it belongs to, the comment
      it replies to (`None` for a direct comment on the post) and its text. */
  datatype Comment = Comment(id: int, postId: int, userId: int, parent: Option<int>, content: string)

  /** One rendered comment and the level it is indented to. */
  datatype Line = Line(comment: Comment, depth: nat)

  /** Every reply points to a smaller id than its own. Ids autoincrement and
      a reply can only be written against a comment that already exists, so
      every stored list satisfies this; it gives the model's walk its
      decreasing measure. */
  predicate ParentsBelow(cs: seq<Comment>) {
    forall c :: c in cs && c.parent.Some? ==> c.parent.value < c.id
  }

  /** Ids are a primary key. */
  predicate UniqueIds(cs: seq<Comment>) {
    forall i, j :: 0 <= i < |cs| && 0 <= j < |cs| && cs[i].id == cs[j].id ==> i == j
  }

  /** The largest id in the list (0 for an empty list). */
  function MaxId(cs: seq<Comment>): (m: int)
    ensures forall c :: c in cs ==> c.id <= m
    ensures cs != [] ==> exists c :: c in cs && c.id == m
  {
    if cs == [] then 0
    else
      var m := MaxId(cs[1..]);
      assert forall c :: c in cs ==> c == cs[0] || c in cs[1..];
      if cs[1..] == [] || cs[0].id > m then cs[0].id else m
  }

  /** How far a target parent id is below the largest id: replies of `p`
      have larger ids than `p`, so this shrinks at every level of the walk. */
  function Gap(cs: seq<Comment>, parent: Option<int>): nat {
    if parent.Some? && parent.value < MaxId(cs) then MaxId(cs) - parent.value else 0
  }

  /** Going from a parent to one of its listed replies shrinks the gap. */
  lemma GapShrinks(cs: seq<Comment>, x: Comment)
    requires ParentsBelow(cs) && x in cs && x.parent.Some?
    ensures Gap(cs, Some(x.id)) < Gap(cs, x.parent)
  {
  }

  /** The loop of `display_comments(cs, parent, level)` over the part `rest`
      of the list not yet visited. */
  function Scan(cs: seq<Comment>, rest: seq<Comment>, parent: Option<int>, level: nat): (r: seq<Line>)
    requires ParentsBelow(cs)
    requires forall c :: c in rest ==> c in cs
    ensures forall ln :: ln in r ==> ln.comment in cs && ln.depth >= level
    ensures forall ln :: ln in r && ln.depth == level ==> ln.comment in rest && ln.comment.parent == parent
    decreases parent.None?, Gap(cs, parent), |rest|
  {
    if rest == [] then []
    else
      var c := rest[0];
      var here := if c.parent == parent then [Line(c, level)] + Scan(cs, cs, Some(c.id), level + 1) else [];
      here + Scan(cs, rest[1..], parent, level)
  }

  /** `display_comments(cs, parent, level)` */
  function Walk(cs: seq<Comment>, parent: Option<int>, level: nat): (r: seq<Line>)
    requires ParentsBelow(cs)
    ensures r != [] ==> r[0].depth == level && r[0].comment.parent == parent && r[0].comment in cs
  {
    ScanFirst(cs, cs, parent, level);
    Scan(cs, cs, parent, level)
  }

  /** A scan that shows anything opens with a reply to its parent, at its
      level. */
  lemma {:induction false} ScanFirst(cs: seq<Comment>, rest: seq<Comment>, parent: Option<int>, level: nat)
    requires ParentsBelow(cs)
    requires forall c :: c in rest ==> c in cs
    ensures var r := Scan(cs, rest, parent, level);
      r != [] ==> r[0].depth == level && r[0].comment.parent == parent && r[0].comment in rest
  {
    if rest != [] && rest[0].parent != parent {
      ScanFirst(cs, rest[1..], parent, level);
      assert Scan(cs, rest, parent, level) == [] + Scan(cs, rest[1..], parent, level);
    }
  }

  /** The replies to `parent` among `rest`, in list order. */
  function Children(rest: seq<Comment>, parent: Option<int>): (r: seq<Comment>)
    ensures forall c :: c in r ==> c in rest && c.parent == parent
    ensures |r| <= |rest|
  {
    if rest == [] then []
    else (if rest[0].parent == parent then [rest[0]] else []) + Children(rest[1..], parent)
  }

  /** The replies selected are exactly the comments of `rest` with that
      parent. */
  lemma {:induction false} ChildrenMembers(rest: seq<Comment>, parent: Option<int>)
    ensures forall c :: c in Children(rest, parent) <==> c in rest && c.parent == parent
  {
    if rest != [] {
      ChildrenMembers(rest[1..], parent);
      assert forall c :: c in rest <==> c == rest[0] || c in rest[1..];
    }
  }

  /** `a` is `b` with some elements left out and the rest in the same order. */
  predicate Subsequence<T(==)>(a: seq<T>, b: seq<T>)
    decreases |b|
  {
    if a == [] then true
    else if b == [] then false
    else (a[0] == b[0] && Subsequence(a[1..], b[1..])) || Subsequence(a, b[1..])
  }

  /** Siblings keep the order of the list (ascending creation time). */
  lemma {:induction false} ChildrenInListOrder(rest: seq<Comment>, parent: Option<int>)
    ensures Subsequence(Children(rest, parent), rest)
  {
    if rest != [] {
      ChildrenInListOrder(rest[1..], parent);
      var tail := Children(rest[1..], parent);
      if rest[0].parent == parent {
        assert Children(rest, parent) == [rest[0]] + tail;
        assert ([rest[0]] + tail)[1..] == tail;
      } else {
        assert Children(rest, parent) == tail;
        if tail != [] {
          assert Subsequence(tail, rest[1..]);
        }
      }
    }
  }

  /** For each comment in `ks`, in order: its line, then the whole walk of
      its replies one level deeper. */
  function Blocks(cs: seq<Comment>, ks: seq<Comment>, level: nat): seq<Line>
    requires ParentsBelow(cs)
    requires forall c :: c in ks ==> c in cs
  {
    if ks == [] then []
    else [Line(ks[0], level)] + Walk(cs, Some(ks[0].id), level + 1) + Blocks(cs, ks[1..], level)
  }

  lemma {:induction false} ScanIsBlocks(cs: seq<Comment>, rest: seq<Comment>, parent: Option<int>, level: nat)
    requires ParentsBelow(cs)
    requires forall c :: c in rest ==> c in cs
    ensures Scan(cs, rest, parent, level) == Blocks(cs, Children(rest, parent), level)
  {
    if rest != [] {
      ScanIsBlocks(cs, rest[1..], parent, level);
      var c := rest[0];
      var tail := Children(rest[1..], parent);
      if c.parent == parent {
        var ks := [c] + tail;
        assert Children(rest, parent) == ks;
        assert ks[0] == c && ks[1..] == tail;
        assert Blocks(cs, ks, level) == [Line(c, level)] + Walk(cs, Some(c.id), level + 1) + Blocks(cs, tail, level);
      } else {
        assert Children(rest, parent) == tail;
      }
    }
  }

  /** The layout of the walk: the replies to `parent`, in list order, each
      one immediately followed by its whole subtree one level deeper and only
      then by its next sibling. */
  lemma WalkLayout(cs: seq<Comment>, parent: Option<int>, level: nat)
    requires ParentsBelow(cs)
    ensures Walk(cs, parent, level) == Blocks(cs, Children(cs, parent), level)
  {
    ScanIsBlocks(cs, cs, parent, level);
  }

  /** The comments a sequence of lines shows at indentation `depth`, in order. */
  function AtDepth(w: seq<Line>, depth: nat): (r: seq<Comment>)
    ensures |r| <= |w|
  {
    if w == [] then []
    else (if w[0].depth == depth then [w[0].comment] else []) + AtDepth(w[1..], depth)
  }

  lemma {:induction false} AtDepthAppend(a: seq<Line>, b: seq<Line>, depth: nat)
    ensures AtDepth(a + b, depth) == AtDepth(a, depth) + AtDepth(b, depth)
  {
    if a != [] {
      assert (a + b)[0] == a[0];
      assert (a + b)[1..] == a[1..] + b;
      AtDepthAppend(a[1..], b, depth);
    } else {
      assert a + b == b;
    }
  }

  lemma {:induction false} AtDepthAbsent(w: seq<Line>, depth: nat)
    requires forall ln :: ln in w ==> ln.depth != depth
    ensures AtDepth(w, depth) == []
  {
    if w != [] {
      assert w[0] in w;
      AtDepthAbsent(w[1..], depth);
    }
  }

  lemma {:induction false} ScanTopLevel(cs: seq<Comment>, rest: seq<Comment>, parent: Option<int>, level: nat)
    requires ParentsBelow(cs)
    requires forall c :: c in rest ==> c in cs
    ensures AtDepth(Scan(cs, rest, parent, level), level) == Children(rest, parent)
  {
    if rest != [] {
      var c := rest[0];
      ScanTopLevel(cs, rest[1..], parent, level);
      var tail := Scan(cs, rest[1..], parent, level);
      if c.parent == parent {
        var sub := Scan(cs, cs, Some(c.id), level + 1);
        AtDepthAbsent(sub, level);
        AtDepthAppend([Line(c, level)] + sub, tail, level);
        AtDepthAppend([Line(c, level)], sub, level);
        assert AtDepth([Line(c, level)], level) == [c] by {
          assert [Line(c, level)][1..] == [];
        }
        assert Children(rest, parent) == [c] + Children(rest[1..], parent);
      } else {
        assert Scan(cs, rest, parent, level) == [] + tail;
        assert [] + tail == tail;
        assert Children(rest, parent) == Children(rest[1..], parent);
      }
    }
  }

  /** The lines a walk shows at its own level are exactly the replies to its
      target, in list order. For the page's walk (`None`, level 0) these are
      the direct comments on the post, in ascending creation order. */
  lemma TopLevelIsChildren(cs: seq<Comment>, parent: Option<int>, level: nat)
    requires ParentsBelow(cs)
    ensures AtDepth(Walk(cs, parent, level), level) == Children(cs, parent)
    ensures forall ln :: ln in Walk(cs, parent, level) ==> ln.depth >= level
  {
    ScanTopLevel(cs, cs, parent, level);
  }

  /** Line `j` hangs under line `i`: `i` comes first, one level up, shows
      the parent of `j`'s comment, and every line between them is deeper
      than `i` (earlier siblings of `j` and their subtrees). */
  predicate HangsUnder(w: seq<Line>, i: int, j: int) {
    && 0 <= i < j < |w|
    && w[i].depth + 1 == w[j].depth
    && w[j].comment.parent == Some(w[i].comment.id)
    && forall m :: i < m < j ==> w[m].depth > w[i].depth
  }

  /** Some earlier line of `w` is the one line `j` hangs under. */
  ghost predicate HasParentLine(w: seq<Line>, j: int) {
    exists i :: HangsUnder(w, i, j)
  }

  /** The shape of a pre-order listing of the replies to `p` from `level`
      down: lines at `level` are replies to `p`, and every deeper line hangs
      under an earlier line that shows its parent. */
  ghost predicate Nested(w: seq<Line>, p: Option<int>, level: nat) {
    && (forall j :: 0 <= j < |w| ==> w[j].depth >= level)
    && (forall j :: 0 <= j < |w| && w[j].depth == level ==> w[j].comment.parent == p)
    && (forall j :: 0 <= j < |w| && w[j].depth > level ==> HasParentLine(w, j))
  }

  lemma NestedAppend(a: seq<Line>, b: seq<Line>, p: Option<int>, level: nat)
    requires Nested(a, p, level) && Nested(b, p, level)
    ensures Nested(a + b, p, level)
  {
    var w := a + b;
    forall j | 0 <= j < |w| && w[j].depth > level
      ensures HasParentLine(w, j)
    {
      if j < |a| {
        var i :| HangsUnder(a, i, j);
        assert HangsUnder(w, i, j);
      } else {
        assert b[j - |a|] == w[j];
        var i :| HangsUnder(b, i, j - |a|);
        forall m | i + |a| < m < j
          ensures w[m].depth > w[i + |a|].depth
        {
          assert w[m] == b[m - |a|];
        }
        assert HangsUnder(w, i + |a|, j);
      }
    }
  }

  lemma ConsHangDirect(c: Comment, sub: seq<Line>, level: nat, j: int)
    requires forall m :: 0 <= m < |sub| ==> sub[m].depth >= level + 1
    requires 1 <= j < |sub| + 1
    requires sub[j - 1].depth == level + 1 && sub[j - 1].comment.parent == Some(c.id)
    ensures HangsUnder([Line(c, level)] + sub, 0, j)
  {
    var w := [Line(c, level)] + sub;
    forall m | 0 < m < j
      ensures w[m].depth > level
    {
      assert w[m] == sub[m - 1];
    }
  }

  lemma ConsHangDeeper(c: Comment, sub: seq<Line>, level: nat, k: int, j: int)
    requires HangsUnder(sub, k, j - 1)
    ensures HangsUnder([Line(c, level)] + sub, k + 1, j)
  {
    var w := [Line(c, level)] + sub;
    forall m | k + 1 < m < j
      ensures w[m].depth > w[k + 1].depth
    {
      assert w[m] == sub[m - 1];
    }
  }

  lemma ConsHang(c: Comment, sub: seq<Line>, level: nat, j: int) returns (i: int)
    requires Nested(sub, Some(c.id), level + 1)
    requires 1 <= j < |sub| + 1
    ensures HangsUnder([Line(c, level)] + sub, i, j)
  {
    if sub[j - 1].depth == level + 1 {
      i := 0;
      ConsHangDirect(c, sub, level, j);
    } else {
      var k :| HangsUnder(sub, k, j - 1);
      i := k + 1;
      ConsHangDeeper(c, sub, level, k, j);
    }
  }

  lemma NestedCons(c: Comment, sub: seq<Line>, p: Option<int>, level: nat)
    requires c.parent == p && Nested(sub, Some(c.id), level + 1)
    ensures Nested([Line(c, level)] + sub, p, level)
  {
    var w := [Line(c, level)] + sub;
    forall j | 0 <= j < |w|
      ensures w[j].depth >= level
      ensures w[j].depth == level ==> w[j].comment.parent == p
    {
      if j > 0 {
        assert w[j] == sub[j - 1];
      }
    }
    forall j | 0 <= j < |w| && w[j].depth > level
      ensures HasParentLine(w, j)
    {
      var i := ConsHang(c, sub, level, j);
    }
  }

  lemma ScanNested(cs: seq<Comment>, rest: seq<Comment>, parent: Option<int>, level: nat)
    requires ParentsBelow(cs)
    requires forall c :: c in rest ==> c in cs
    ensures Nested(Scan(cs, rest, parent, level), parent, level)
    decreases parent.None?, Gap(cs, parent), |rest|
  {
    if rest != [] {
      var c := rest[0];
      var tail := Scan(cs, rest[1..], parent, level);
      ScanNested(cs, rest[1..], parent, level);
      if c.parent == parent {
        var sub := Scan(cs, cs, Some(c.id), level + 1);
        ScanNested(cs, cs, Some(c.id), level + 1);
        NestedCons(c, sub, parent, level);
        NestedAppend([Line(c, level)] + sub, tail, parent, level);
      } else {
        assert Scan(cs, rest, parent, level) == [] + tail;
        assert [] + tail == tail;
      }
    }
  }

  /** The walk is a well-nested pre-order listing: a reply is shown one level
      below its parent, after it, with only deeper lines in between, so each
      comment's subtree sits right after it and before its next sibling. */
  lemma WalkNested(cs: seq<Comment>, parent: Option<int>, level: nat)
    requires ParentsBelow(cs)
    ensures Nested(Walk(cs, parent, level), parent, level)
  {
    ScanNested(cs, cs, parent, level);
  }

  /** The scenario of a post with one comment and one reply to it: the
      comment is shown first at level 0, then the reply at level 1. */
  lemma ReplyScenario(post: int, a: int, b: int)
    ensures var c1 := Comment(1, post, b, None, "C1");
            var c2 := Comment(2, post, a, Some(1), "C2");
            Walk([c1, c2], None, 0) == [Line(c1, 0), Line(c2, 1)]
  {
    var c1 := Comment(1, post, b, None, "C1");
    var c2 := Comment(2, post, a, Some(1), "C2");
    var cs := [c1, c2];
    assert cs[1..] == [c2] && cs[1..][1..] == [];
    assert Scan(cs, [], Some(2), 2) == [];
    assert Scan(cs, [c2], Some(2), 2) == [];
    assert Scan(cs, cs, Some(2), 2) == [];
    assert Scan(cs, [c2], Some(1), 1) == [Line(c2, 1)];
    assert Scan(cs, cs, Some(1), 1) == [Line(c2, 1)];
    assert Scan(cs, [c2], None, 0) == [];
  }
}
