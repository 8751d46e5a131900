/** Which comments the walk shows, and how often.

    A comment is shown exactly when following its parent links ends at a
    direct comment on the post; it is then shown at the level equal to the
    number of links followed, and, ids being unique, exactly once. A comment
    whose parent is missing from the list, or whose chain of parents reaches
    such a comment, is never shown, and no error is reported for it. */
module ThreadReach {
  import opened Wrappers
  import opened Threads

  /** The comment with key `id`, if the list holds one. */
  function Lookup(cs: seq<Comment>, id: int): (r: Option<Comment>)
    ensures r.Some? ==> r.value in cs && r.value.id == id
    ensures r.None? ==> forall c :: c in cs ==> c.id != id
  {
    if cs == [] then None
    else if cs[0].id == id then Some(cs[0])
    else Lookup(cs[1..], id)
  }

  /** With unique ids the lookup of a listed comment's id finds that comment. */
  lemma {:induction false} LookupFinds(cs: seq<Comment>, c: Comment)
    requires UniqueIds(cs) && c in cs
    ensures Lookup(cs, c.id) == Some(c)
  {
    if cs[0] != c {
      assert c in cs[1..];
      var j :| 0 <= j < |cs[1..]| && cs[1..][j] == c;
      assert cs[j + 1] == c;
      assert cs[0].id != c.id;
      assert UniqueIds(cs[1..]) by {
        forall i, k | 0 <= i < |cs[1..]| && 0 <= k < |cs[1..]| && cs[1..][i].id == cs[1..][k].id
          ensures i == k
        {
          assert cs[i + 1].id == cs[k + 1].id;
        }
      }
      LookupFinds(cs[1..], c);
    }
  }

  /** Following parent links `n` times from `c`, each time to the listed
      comment with that id, ends at a comment whose parent is `p`. */
  predicate ChainTo(cs: seq<Comment>, c: Comment, p: Option<int>, n: nat)
    decreases n
  {
    if n == 0 then c.parent == p
    else
      && c.parent.Some?
      && Lookup(cs, c.parent.value).Some?
      && ChainTo(cs, Lookup(cs, c.parent.value).value, p, n - 1)
  }

  /** The chain of parents of `c` ends at a direct comment on the post. */
  ghost predicate Rooted(cs: seq<Comment>, c: Comment) {
    exists n :: ChainTo(cs, c, None, n)
  }

  /** Membership in the scan: a line is shown by the loop over `rest` exactly
      when it is the line of a reply `x` in `rest`, or lies in the walk of
      `x`'s own replies. */
  lemma {:induction false} ScanMember(cs: seq<Comment>, rest: seq<Comment>, p: Option<int>, level: nat, ln: Line)
    requires ParentsBelow(cs)
    requires forall c :: c in rest ==> c in cs
    ensures ln in Scan(cs, rest, p, level) <==>
      exists x :: x in rest && x.parent == p && (ln == Line(x, level) || ln in Walk(cs, Some(x.id), level + 1))
  {
    if rest != [] {
      var c := rest[0];
      ScanMember(cs, rest[1..], p, level, ln);
      var tail := Scan(cs, rest[1..], p, level);
      var here := if c.parent == p then [Line(c, level)] + Walk(cs, Some(c.id), level + 1) else [];
      assert Scan(cs, rest, p, level) == here + tail;
      assert forall x :: x in rest <==> x == c || x in rest[1..];
    }
  }

  /** The reply to `p` in `rest` under which a line of the scan is shown. */
  lemma ShownUnder(cs: seq<Comment>, rest: seq<Comment>, p: Option<int>, level: nat, ln: Line) returns (x: Comment)
    requires ParentsBelow(cs)
    requires forall c :: c in rest ==> c in cs
    requires ln in Scan(cs, rest, p, level)
    ensures x in rest && x.parent == p
    ensures ln == Line(x, level) || ln in Walk(cs, Some(x.id), level + 1)
  {
    ScanMember(cs, rest, p, level, ln);
    x :| x in rest && x.parent == p && (ln == Line(x, level) || ln in Walk(cs, Some(x.id), level + 1));
  }

  /** A reply to `p` is shown by the walk of `p` at its level. */
  lemma ReplyShown(cs: seq<Comment>, x: Comment, level: nat)
    requires ParentsBelow(cs) && x in cs
    ensures Line(x, level) in Walk(cs, x.parent, level)
  {
    ScanMember(cs, cs, x.parent, level, Line(x, level));
  }

  /** The walk of a reply's own replies is part of the walk of its parent. */
  lemma SubtreeShown(cs: seq<Comment>, x: Comment, level: nat, ln: Line)
    requires ParentsBelow(cs) && x in cs
    requires ln in Walk(cs, Some(x.id), level + 1)
    ensures ln in Walk(cs, x.parent, level)
  {
    ScanMember(cs, cs, x.parent, level, ln);
  }

  /** One more link: a chain that ends at a reply to `x` extends to one that
      ends at a reply to `x`'s parent. */
  lemma {:induction false} ChainExtend(cs: seq<Comment>, c: Comment, x: Comment, m: nat)
    requires UniqueIds(cs) && x in cs
    requires ChainTo(cs, c, Some(x.id), m)
    ensures ChainTo(cs, c, x.parent, m + 1)
    decreases m
  {
    LookupFinds(cs, x);
    if m > 0 {
      ChainExtend(cs, Lookup(cs, c.parent.value).value, x, m - 1);
    }
  }

  /** A chain of `n + 1` links to `p` passes through a listed reply `x` to `p`. */
  lemma {:induction false} ChainTop(cs: seq<Comment>, c: Comment, p: Option<int>, n: nat)
    requires ChainTo(cs, c, p, n + 1)
    ensures exists x :: x in cs && x.parent == p && ChainTo(cs, c, Some(x.id), n)
    decreases n
  {
    var a := Lookup(cs, c.parent.value).value;
    if n == 0 {
      assert ChainTo(cs, c, Some(a.id), 0);
    } else {
      ChainTop(cs, a, p, n - 1);
      var x :| x in cs && x.parent == p && ChainTo(cs, a, Some(x.id), n - 1);
      assert ChainTo(cs, c, Some(x.id), n);
    }
  }

  /** Chains are determined by their length. */
  lemma {:induction false} ChainEndUnique(cs: seq<Comment>, c: Comment, p: Option<int>, q: Option<int>, n: nat)
    requires ChainTo(cs, c, p, n) && ChainTo(cs, c, q, n)
    ensures p == q
    decreases n
  {
    if n > 0 {
      ChainEndUnique(cs, Lookup(cs, c.parent.value).value, p, q, n - 1);
    }
  }

  /** A chain to "no parent" cannot be continued, so its length is fixed. */
  lemma {:induction false} RootChainLengthUnique(cs: seq<Comment>, c: Comment, n1: nat, n2: nat)
    requires ChainTo(cs, c, None, n1) && ChainTo(cs, c, None, n2)
    ensures n1 == n2
    decreases n1
  {
    if n1 > 0 && n2 > 0 {
      RootChainLengthUnique(cs, Lookup(cs, c.parent.value).value, n1 - 1, n2 - 1);
    }
  }

  /** A line of a walk at its own level shows a reply to the walk's parent. */
  lemma ShownHere(cs: seq<Comment>, p: Option<int>, level: nat, c: Comment, d: nat, x: Comment)
    requires x in cs && x.parent == p && Line(c, d) == Line(x, level)
    ensures c in cs && d >= level && ChainTo(cs, c, p, d - level)
  {
    assert ChainTo(cs, c, p, 0);
  }

  /** A line below a reply `x` to `p` that reaches `x` reaches `p` in one
      more link. */
  lemma ShownBelow(cs: seq<Comment>, p: Option<int>, level: nat, c: Comment, d: nat, x: Comment)
    requires UniqueIds(cs) && x in cs && x.parent == p
    requires c in cs && d >= level + 1 && ChainTo(cs, c, Some(x.id), d - (level + 1))
    ensures c in cs && d >= level && ChainTo(cs, c, p, d - level)
  {
    ChainExtend(cs, c, x, d - (level + 1));
  }

  /** Soundness: every line of the walk of `p` shows a listed comment whose
      chain reaches a reply to `p` after as many links as it is indented
      beyond `level`. */
  lemma {:induction false} WalkSound(cs: seq<Comment>, p: Option<int>, level: nat, c: Comment, d: nat)
    requires ParentsBelow(cs) && UniqueIds(cs)
    requires Line(c, d) in Walk(cs, p, level)
    ensures c in cs && d >= level && ChainTo(cs, c, p, d - level)
    decreases p.None?, Gap(cs, p)
  {
    var x := ShownUnder(cs, cs, p, level, Line(c, d));
    if Line(c, d) == Line(x, level) {
      ShownHere(cs, p, level, c, d, x);
    } else {
      if p.Some? {
        GapShrinks(cs, x);
      }
      WalkSound(cs, Some(x.id), level + 1, c, d);
      ShownBelow(cs, p, level, c, d, x);
    }
  }

  /** Completeness: every listed comment whose chain reaches a reply to `p`
      is shown by the walk of `p`, indented by the length of the chain. */
  lemma {:induction false} WalkComplete(cs: seq<Comment>, p: Option<int>, level: nat, c: Comment, d: nat)
    requires ParentsBelow(cs)
    requires c in cs && d >= level && ChainTo(cs, c, p, d - level)
    ensures Line(c, d) in Walk(cs, p, level)
    decreases d - level
  {
    if d == level {
      ReplyShown(cs, c, level);
    } else {
      ChainTop(cs, c, p, d - level - 1);
      var x :| x in cs && x.parent == p && ChainTo(cs, c, Some(x.id), d - level - 1);
      WalkComplete(cs, Some(x.id), level + 1, c, d);
      SubtreeShown(cs, x, level, Line(c, d));
    }
  }

  /** The page's walk shows comment `c` at level `d` exactly when `c` is
      listed and reaches a direct comment on the post after `d` links. */
  lemma ShownIffChain(cs: seq<Comment>, c: Comment, d: nat)
    requires ParentsBelow(cs) && UniqueIds(cs)
    ensures Line(c, d) in Walk(cs, None, 0) <==> c in cs && ChainTo(cs, c, None, d)
  {
    if Line(c, d) in Walk(cs, None, 0) {
      WalkSound(cs, None, 0, c, d);
    }
    if c in cs && ChainTo(cs, c, None, d) {
      WalkComplete(cs, None, 0, c, d);
    }
  }

  /** A listed comment is shown, at some level, exactly when its chain of
      parents reaches the post. */
  lemma ShownIffRooted(cs: seq<Comment>, c: Comment)
    requires ParentsBelow(cs) && UniqueIds(cs) && c in cs
    ensures (exists d :: Line(c, d) in Walk(cs, None, 0)) <==> Rooted(cs, c)
  {
    if d :| Line(c, d) in Walk(cs, None, 0) {
      ShownIffChain(cs, c, d);
    }
    if Rooted(cs, c) {
      var n :| ChainTo(cs, c, None, n);
      ShownIffChain(cs, c, n);
    }
  }

  /** A reply whose parent is not in the list is never shown, and neither is
      anything below it. */
  lemma OrphanHidden(cs: seq<Comment>, c: Comment, q: int)
    requires ParentsBelow(cs) && UniqueIds(cs)
    requires c.parent == Some(q) && forall x :: x in cs ==> x.id != q
    ensures forall d :: Line(c, d) !in Walk(cs, None, 0)
  {
    forall d | Line(c, d) in Walk(cs, None, 0)
      ensures false
    {
      ShownIffChain(cs, c, d);
    }
  }

  predicate Distinct<T(==)>(w: seq<T>) {
    forall i, j :: 0 <= i < j < |w| ==> w[i] != w[j]
  }

  lemma DistinctAppend<T>(a: seq<T>, b: seq<T>)
    requires Distinct(a) && Distinct(b)
    requires forall z :: z in a ==> z !in b
    ensures Distinct(a + b)
  {
    forall i, j | 0 <= i < j < |a + b|
      ensures (a + b)[i] != (a + b)[j]
    {
      if i < |a| && |a| <= j {
        assert (a + b)[i] in a && (a + b)[j] in b;
      }
    }
  }

  /** A comment at the front of a list with unique ids does not occur again
      further on, not even under another value with the same id. */
  lemma UniqueFront(rest: seq<Comment>, y: Comment)
    requires UniqueIds(rest) && rest != [] && y in rest[1..]
    ensures y.id != rest[0].id
  {
    var j :| 0 <= j < |rest[1..]| && rest[1..][j] == y;
    assert rest[j + 1] == y;
  }

  lemma UniqueTail(rest: seq<Comment>)
    requires UniqueIds(rest) && rest != []
    ensures UniqueIds(rest[1..])
  {
    forall i, k | 0 <= i < |rest[1..]| && 0 <= k < |rest[1..]| && rest[1..][i].id == rest[1..][k].id
      ensures i == k
    {
      assert rest[i + 1].id == rest[k + 1].id;
    }
  }

  /** The line of the first reply in `rest` is not shown again by the scan
      of the rest of the list. */
  lemma HeadApart(cs: seq<Comment>, rest: seq<Comment>, p: Option<int>, level: nat)
    requires ParentsBelow(cs) && UniqueIds(rest)
    requires forall c :: c in rest ==> c in cs
    requires rest != []
    ensures Line(rest[0], level) !in Scan(cs, rest[1..], p, level)
  {
    var z := Line(rest[0], level);
    if z in Scan(cs, rest[1..], p, level) {
      var y := ShownUnder(cs, rest[1..], p, level, z);
      UniqueFront(rest, y);
    }
  }

  /** With unique ids, two reply walks at the same level that share a line
      are walks of the same parent. */
  lemma SharedLineSameParent(cs: seq<Comment>, a: int, b: int, level: nat, z: Line)
    requires ParentsBelow(cs) && UniqueIds(cs)
    requires z in Walk(cs, Some(a), level) && z in Walk(cs, Some(b), level)
    ensures a == b
  {
    WalkSound(cs, Some(a), level, z.comment, z.depth);
    WalkSound(cs, Some(b), level, z.comment, z.depth);
    ChainEndUnique(cs, z.comment, Some(a), Some(b), z.depth - level);
  }

  /** A line of the subtree of the first reply in `rest` is not shown by the
      scan of the rest of the list. */
  lemma SubtreeApart(cs: seq<Comment>, rest: seq<Comment>, p: Option<int>, level: nat, z: Line)
    requires ParentsBelow(cs) && UniqueIds(cs) && UniqueIds(rest)
    requires forall c :: c in rest ==> c in cs
    requires rest != []
    requires z in Walk(cs, Some(rest[0].id), level + 1)
    ensures z !in Scan(cs, rest[1..], p, level)
  {
    if z in Scan(cs, rest[1..], p, level) {
      var y := ShownUnder(cs, rest[1..], p, level, z);
      UniqueFront(rest, y);
      if z != Line(y, level) {
        SharedLineSameParent(cs, rest[0].id, y.id, level + 1, z);
      }
    }
  }

  /** No line is shown twice by a scan. */
  lemma ScanDistinct(cs: seq<Comment>, rest: seq<Comment>, p: Option<int>, level: nat)
    requires ParentsBelow(cs) && UniqueIds(cs) && UniqueIds(rest)
    requires forall c :: c in rest ==> c in cs
    ensures Distinct(Scan(cs, rest, p, level))
    decreases p.None?, Gap(cs, p), |rest|
  {
    if rest != [] {
      var c := rest[0];
      var tail := Scan(cs, rest[1..], p, level);
      UniqueTail(rest);
      ScanDistinct(cs, rest[1..], p, level);
      if c.parent == p {
        var sub := Walk(cs, Some(c.id), level + 1);
        ScanDistinct(cs, cs, Some(c.id), level + 1);
        DistinctAppend([Line(c, level)], sub);
        HeadApart(cs, rest, p, level);
        forall z | z in [Line(c, level)] + sub
          ensures z !in tail
        {
          if z != Line(c, level) {
            SubtreeApart(cs, rest, p, level, z);
          }
        }
        DistinctAppend([Line(c, level)] + sub, tail);
      } else {
        assert Scan(cs, rest, p, level) == [] + tail;
        assert [] + tail == tail;
      }
    }
  }

  /** No two lines show the same comment. */
  predicate NoCommentTwice(w: seq<Line>) {
    forall i, j :: 0 <= i < |w| && 0 <= j < |w| && w[i].comment == w[j].comment ==> i == j
  }

  /** Every listed comment whose chain of parents reaches the post is shown
      by the page's walk, and no comment is shown more than once. */
  lemma ShownExactlyOnce(cs: seq<Comment>, c: Comment)
    requires ParentsBelow(cs) && UniqueIds(cs)
    requires c in cs && Rooted(cs, c)
    ensures exists j :: 0 <= j < |Walk(cs, None, 0)| && Walk(cs, None, 0)[j].comment == c
    ensures NoCommentTwice(Walk(cs, None, 0))
  {
    var w := Walk(cs, None, 0);
    var n :| ChainTo(cs, c, None, n);
    ShownIffChain(cs, c, n);
    var j :| 0 <= j < |w| && w[j] == Line(c, n);
    ScanDistinct(cs, cs, None, 0);
    forall i, k | 0 <= i < |w| && 0 <= k < |w| && w[i].comment == w[k].comment
      ensures i == k
    {
      ShownIffChain(cs, w[i].comment, w[i].depth);
      ShownIffChain(cs, w[k].comment, w[k].depth);
      RootChainLengthUnique(cs, w[i].comment, w[i].depth, w[k].depth);
      assert w[i] == w[k];
    }
  }

  /** The smallest id in the list (0 for an empty list). */
  function MinId(cs: seq<Comment>): (m: int)
    ensures forall c :: c in cs ==> m <= c.id
    ensures cs != [] ==> exists c :: c in cs && c.id == m
  {
    if cs == [] then 0
    else
      var m := MinId(cs[1..]);
      assert forall c :: c in cs ==> c == cs[0] || c in cs[1..];
      if cs[1..] == [] || cs[0].id < m then cs[0].id else m
  }

  /** Every reply's parent is in the list. */
  ghost predicate ParentsListed(cs: seq<Comment>) {
    forall c :: c in cs && c.parent.Some? ==> exists d :: d in cs && d.id == c.parent.value
  }

  /** In a list where every parent is present, every comment is rooted: its
      chain of parents, going down in id at every link, reaches the post. */
  lemma RootedWhenParentsListed(cs: seq<Comment>, c: Comment)
    requires ParentsBelow(cs) && ParentsListed(cs) && c in cs
    ensures Rooted(cs, c)
    decreases c.id - MinId(cs)
  {
    if c.parent.None? {
      assert ChainTo(cs, c, None, 0);
    } else {
      var a := Lookup(cs, c.parent.value).value;
      RootedWhenParentsListed(cs, a);
      var n: nat :| ChainTo(cs, a, None, n);
      assert ChainTo(cs, c, None, n + 1);
    }
  }
}
